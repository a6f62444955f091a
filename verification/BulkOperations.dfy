/** One action over many contacts, with partial success. */
module BulkOperations {
  import opened Wrappers

  /** A contact by user and vCard UID, unique among live contacts; a deleted one that shares them is not held. */
  datatype Key = Key(user: nat, uid: string)

  /** `revision` stands for all the columns a save rewrites: the revision, the etag made from it, and updated_at. */
  datatype Contact = Contact(deleted: bool, archived: bool, revision: nat)

  /** A circle membership or a tag on a contact. */
  datatype Link = Link(group: string, user: nat, uid: string)

  datatype Reminder = Reminder(contact: Key, deleted: bool)

  /** Circles and tags with their owners; deliveries with the reminder they belong to. */
  datatype State = State(contacts: map<Key, Contact>, circles: map<string, nat>, tags: map<string, nat>,
                         members: set<Link>, labels: set<Link>, reminders: map<nat, Reminder>,
                         deliveries: map<nat, nat>)

  datatype Action =
    | AddCircle(circle: string) | RemoveCircle(circle: string) | AddTag(tag: string) | RemoveTag(tag: string)
    | Archive | Unarchive | Delete | Unknown(name: string)

  datatype Abort = IdRequired | GroupNotFound(id: string)

  datatype Outcome = Outcome(total: nat, succeeded: nat, failed: nat, failures: seq<string>)

  // One action on a set of contacts

  predicate Hit(k: Key, user: nat, hits: set<string>) {
    k.user == user && k.uid in hits
  }

  predicate LinkHit(l: Link, user: nat, hits: set<string>) {
    l.user == user && l.uid in hits
  }

  /** The existence check of an add looks at group and contact only. */
  predicate Linked(links: set<Link>, group: string, uid: string) {
    exists l :: l in links && l.group == group && l.uid == uid
  }

  function Added(links: set<Link>, user: nat, group: string, hits: set<string>): set<Link> {
    links + set uid | uid in hits && !Linked(links, group, uid) :: Link(group, user, uid)
  }

  function Removed(links: set<Link>, user: nat, group: string, hits: set<string>): set<Link> {
    set l | l in links && !(l.group == group && LinkHit(l, user, hits))
  }

  function Cleared(links: set<Link>, user: nat, hits: set<string>): set<Link> {
    set l | l in links && !LinkHit(l, user, hits)
  }

  function Retired(reminders: map<nat, Reminder>, user: nat, hits: set<string>): map<nat, Reminder> {
    map r | r in reminders ::
      if Hit(reminders[r].contact, user, hits) then reminders[r].(deleted := true) else reminders[r]
  }

  function Undelivered(s: State, user: nat, hits: set<string>): map<nat, nat> {
    map d | && d in s.deliveries
            && !(s.deliveries[d] in s.reminders && Hit(s.reminders[s.deliveries[d]].contact, user, hits)) ::
      s.deliveries[d]
  }

  function Changed(contacts: map<Key, Contact>, user: nat, hits: set<string>, f: Contact -> Contact): map<Key,
                   Contact> {
    map k | k in contacts :: if Hit(k, user, hits) then f(contacts[k]) else contacts[k]
  }

  /** Archiving is a save and raises the revision, even of a contact that is archived already. */
  function ArchivedAs(archived: bool): Contact -> Contact {
    (c: Contact) => c.(archived := archived, revision := c.revision + 1)
  }

  const DELETED: Contact -> Contact := (c: Contact) => c.(deleted := true)

  /** A change to contacts that also retires their reminders, and for a delete removes their links. */
  function Silenced(s: State, user: nat, hits: set<string>, f: Contact -> Contact, links: bool): State {
    s.(contacts := Changed(s.contacts, user, hits, f),
       members := if links then Cleared(s.members, user, hits) else s.members,
       labels := if links then Cleared(s.labels, user, hits) else s.labels,
       reminders := Retired(s.reminders, user, hits), deliveries := Undelivered(s, user, hits))
  }

  /** The state after the action has reached every contact of `hits`. */
  function After(s: State, user: nat, hits: set<string>, action: Action): State {
    match action
    case AddCircle(c) => s.(members := Added(s.members, user, c, hits))
    case RemoveCircle(c) => s.(members := Removed(s.members, user, c, hits))
    case AddTag(t) => s.(labels := Added(s.labels, user, t, hits))
    case RemoveTag(t) => s.(labels := Removed(s.labels, user, t, hits))
    case Archive => Silenced(s, user, hits, ArchivedAs(true), false)
    case Unarchive => s.(contacts := Changed(s.contacts, user, hits, ArchivedAs(false)))
    case Delete => Silenced(s, user, hits, DELETED, true)
    case Unknown(_) => s
  }

  // A whole request

  /** The targets without repeats, in order of first mention. */
  function Targets(uids: seq<string>): seq<string> {
    if uids == [] then []
    else
      var before, uid := Targets(uids[..|uids| - 1]), uids[|uids| - 1];
      if uid in before then before else before + [uid]
  }

  predicate Owned(s: State, user: nat, uid: string) {
    Key(user, uid) in s.contacts && !s.contacts[Key(user, uid)].deleted
  }

  predicate Succeeds(s: State, user: nat, action: Action, uid: string) {
    Owned(s, user, uid) && !action.Unknown?
  }

  function Hits(s: State, user: nat, action: Action, targets: seq<string>): set<string> {
    set uid | uid in targets && Succeeds(s, user, action, uid)
  }

  function Failures(s: State, user: nat, action: Action, targets: seq<string>): seq<string> {
    if targets == [] then []
    else
      var before, uid := Failures(s, user, action, targets[..|targets| - 1]), targets[|targets| - 1];
      if Succeeds(s, user, action, uid) then before else before + [uid]
  }

  /** A missing or foreign circle or tag stops the whole request. */
  function Aborted(s: State, user: nat, action: Action): Option<Abort> {
    match action
    case AddCircle(id) => GroupCheck(s.circles, user, id)
    case RemoveCircle(id) => GroupCheck(s.circles, user, id)
    case AddTag(id) => GroupCheck(s.tags, user, id)
    case RemoveTag(id) => GroupCheck(s.tags, user, id)
    case _ => None
  }

  function GroupCheck(groups: map<string, nat>, user: nat, id: string): Option<Abort> {
    if id == "" then Some(IdRequired)
    else if id !in groups || groups[id] != user then Some(GroupNotFound(id))
    else None
  }

  function OutcomeOf(s: State, user: nat, action: Action, uids: seq<string>): Outcome {
    var targets := Targets(uids);
    var failures := Failures(s, user, action, targets);
    Outcome(|targets|, |Hits(s, user, action, targets)|, |failures|, failures)
  }

  function Bulk(s: State, user: nat, action: Action, uids: seq<string>): State {
    if Aborted(s, user, action).Some? then s else After(s, user, Hits(s, user, action, Targets(uids)), action)
  }

  // Accounting

  predicate Distinct(uids: seq<string>) {
    forall i, j :: 0 <= i < j < |uids| ==> uids[i] != uids[j]
  }

  function Elements(uids: seq<string>): set<string> {
    set uid | uid in uids
  }

  lemma {:induction false} TargetsAreTheSet(uids: seq<string>)
    ensures Distinct(Targets(uids)) && Elements(Targets(uids)) == Elements(uids)
  {
    if uids != [] {
      var n := |uids| - 1;
      TargetsAreTheSet(uids[..n]);
      assert uids == uids[..n] + [uids[n]];
      assert Elements(uids) == Elements(uids[..n]) + {uids[n]};
      assert forall x :: x in Elements(uids[..n]) <==> x in Targets(uids[..n]);
    }
  }

  lemma {:induction false} CountDistinct(uids: seq<string>)
    requires Distinct(uids)
    ensures |Elements(uids)| == |uids|
  {
    if uids == [] {
      assert Elements(uids) == {};
    } else {
      var n := |uids| - 1;
      assert uids == uids[..n] + [uids[n]];
      CountDistinct(uids[..n]);
      assert Elements(uids) == Elements(uids[..n]) + {uids[n]};
      assert uids[n] !in uids[..n];
    }
  }

  lemma {:induction false} FailuresAre(s: State, user: nat, action: Action, targets: seq<string>)
    ensures forall uid ::
              uid in Failures(s, user, action, targets) <==> uid in targets && !Succeeds(s, user, action, uid)
  {
    hide Succeeds;
    if targets != [] {
      var n := |targets| - 1;
      FailuresAre(s, user, action, targets[..n]);
      assert targets == targets[..n] + [targets[n]];
    }
  }

  lemma DistinctPrefix(targets: seq<string>)
    requires Distinct(targets) && targets != []
    ensures var n := |targets| - 1;
            Distinct(targets[..n]) && targets[n] !in targets[..n] && targets == targets[..n] + [targets[n]]
  {
  }

  lemma {:induction false} HitsAndFailures(s: State, user: nat, action: Action, targets: seq<string>)
    requires Distinct(targets)
    ensures |Hits(s, user, action, targets)| + |Failures(s, user, action, targets)| == |targets|
  {
    hide Succeeds, Distinct, Hits;
    if targets == [] {
      NoTargets(s, user, action);
    } else {
      var n := |targets| - 1;
      DistinctPrefix(targets);
      HitsAndFailures(s, user, action, targets[..n]);
      OneMoreTarget(s, user, action, targets[..n], targets[n]);
    }
  }

  lemma OneMoreTarget(s: State, user: nat, action: Action, targets: seq<string>, uid: string)
    requires uid !in targets
    ensures var hits := Hits(s, user, action, targets);
            if Succeeds(s, user, action, uid)
            then uid !in hits && Hits(s, user, action, targets + [uid]) == hits + {uid}
                 && |Hits(s, user, action, targets + [uid])| == |hits| + 1
            else Hits(s, user, action, targets + [uid]) == hits
  {
    hide Succeeds;
    if Succeeds(s, user, action, uid) {
      assert Hits(s, user, action, targets + [uid]) == Hits(s, user, action, targets) + {uid};
    } else {
      assert Hits(s, user, action, targets + [uid]) == Hits(s, user, action, targets);
    }
  }

  /**
   * Total is the number of distinct targets, every target either succeeds or fails, and the failures are
   * exactly the targets that are not the caller's live contacts, in request order.
   */
  lemma AccountsExactly(s: State, user: nat, action: Action, uids: seq<string>)
    requires !action.Unknown?
    ensures var o := OutcomeOf(s, user, action, uids);
            && o.total == |Elements(uids)| && o.total == o.succeeded + o.failed && o.failed == |o.failures|
            && o.failures == Failures(s, user, action, Targets(uids))
            && forall uid :: uid in o.failures <==> uid in uids && !Owned(s, user, uid)
  {
    hide Owned;
    var targets := Targets(uids);
    TargetsAreTheSet(uids);
    CountDistinct(targets);
    HitsAndFailures(s, user, action, targets);
    FailuresAre(s, user, action, targets);
    assert forall uid :: uid in uids <==> uid in Elements(uids);
    assert forall uid :: uid in targets <==> uid in Elements(targets);
  }

  /** `sub` is read off `all` at increasing places. */
  predicate PickedAt(sub: seq<string>, all: seq<string>, places: seq<nat>) {
    && |places| == |sub|
    && (forall i :: 0 <= i < |places| ==> places[i] < |all| && all[places[i]] == sub[i])
    && forall i, j :: 0 <= i < j < |places| ==> places[i] < places[j]
  }

  lemma PickedFurther(sub: seq<string>, all: seq<string>, places: seq<nat>, last: string)
    requires PickedAt(sub, all, places)
    ensures PickedAt(sub, all + [last], places)
    ensures PickedAt(sub + [last], all + [last], places + [|all|])
  {
  }

  /** The targets are the uids of the request at their first mentions, in order. */
  lemma {:induction false} TargetsArePicked(uids: seq<string>) returns (places: seq<nat>)
    ensures PickedAt(Targets(uids), uids, places)
    ensures forall k, j :: 0 <= k < |places| && 0 <= j < places[k] ==> uids[j] != uids[places[k]]
  {
    places := [];
    if uids != [] {
      var n := |uids| - 1;
      places := TargetsArePicked(uids[..n]);
      TargetsAreTheSet(uids[..n]);
      assert uids[n] in Targets(uids[..n]) <==> uids[n] in Elements(Targets(uids[..n]));
      assert uids[n] in uids[..n] <==> uids[n] in Elements(uids[..n]);
      PickedFurther(Targets(uids[..n]), uids[..n], places, uids[n]);
      assert uids == uids[..n] + [uids[n]];
      if uids[n] !in Targets(uids[..n]) {
        places := places + [n];
      }
    }
  }

  lemma {:induction false} FailuresArePicked(s: State, user: nat, action: Action,
                                             targets: seq<string>) returns (places: seq<nat>)
    ensures PickedAt(Failures(s, user, action, targets), targets, places)
  {
    hide Succeeds;
    places := [];
    if targets != [] {
      var n := |targets| - 1;
      places := FailuresArePicked(s, user, action, targets[..n]);
      PickedFurther(Failures(s, user, action, targets[..n]), targets[..n], places, targets[n]);
      assert targets == targets[..n] + [targets[n]];
      if !Succeeds(s, user, action, targets[n]) {
        places := places + [n];
      }
    }
  }

  /** The failures appear in the order in which the request names their targets. */
  lemma FailuresInRequestOrder(s: State, user: nat, action: Action, uids: seq<string>) returns (places: seq<nat>)
    ensures PickedAt(OutcomeOf(s, user, action, uids).failures, uids, places)
  {
    hide Targets, Failures, Hits;
    var outer := TargetsArePicked(uids);
    var inner := FailuresArePicked(s, user, action, Targets(uids));
    places := seq(|inner|, i requires 0 <= i < |inner| => outer[inner[i]]);
  }

  // Repeating a request

  /** The same but for the revisions of archived or unarchived contacts. */
  ghost predicate SameButRevisions(s: State, s': State) {
    && s' == s.(contacts := s'.contacts)
    && s'.contacts.Keys == s.contacts.Keys
    && forall k :: k in s.contacts ==> s'.contacts[k] == s.contacts[k].(revision := s'.contacts[k].revision)
  }

  lemma AddedTwice(links: set<Link>, user: nat, group: string, hits: set<string>)
    ensures var once := Added(links, user, group, hits);
            Added(once, user, group, hits) == once && forall uid :: uid in hits ==> Linked(once, group, uid)
  {
    var once := Added(links, user, group, hits);
    forall uid | uid in hits ensures Linked(once, group, uid) {
      if !Linked(links, group, uid) {
        assert Link(group, user, uid) in once;
      } else {
        var l :| l in links && l.group == group && l.uid == uid;
        assert l in once;
      }
    }
  }

  lemma RetiredTwice(s: State, user: nat, hits: set<string>)
    ensures var once := s.(reminders := Retired(s.reminders, user, hits), deliveries := Undelivered(s, user, hits));
            Retired(once.reminders, user, hits) == once.reminders && Undelivered(once, user, hits) == once.deliveries
  {
  }

  /** An action that has reached its contacts finds nothing more to do, but archiving saves again. */
  lemma AfterTwice(s: State, user: nat, hits: set<string>, action: Action)
    requires !action.Delete?
    ensures var once := After(s, user, hits, action);
            && SameButRevisions(once, After(once, user, hits, action))
            && (!action.Archive? && !action.Unarchive? ==> After(once, user, hits, action) == once)
  {
    match action
    case AddCircle(c) => AddedTwice(s.members, user, c, hits);
    case RemoveCircle(c) =>
    case AddTag(t) => AddedTwice(s.labels, user, t, hits);
    case RemoveTag(t) =>
    case Archive =>
      hide Retired, Undelivered;
      RetiredTwice(s, user, hits);
      var once := After(s, user, hits, action);
      var half := s.(reminders := Retired(s.reminders, user, hits), deliveries := Undelivered(s, user, hits));
      DeliveriesIgnoreContacts(once, half, user, hits);
    case Unarchive =>
    case Unknown(_) =>
  }

  lemma DeliveriesIgnoreContacts(a: State, b: State, user: nat, hits: set<string>)
    requires a.reminders == b.reminders && a.deliveries == b.deliveries
    ensures Undelivered(a, user, hits) == Undelivered(b, user, hits)
  {
  }

  lemma OwnedAfter(s: State, user: nat, hits: set<string>, action: Action, uid: string)
    ensures Owned(After(s, user, hits, action), user, uid) <==> Owned(s, user, uid) && !(action.Delete? && uid in hits)
  {
    hide Added, Removed, Cleared, Retired, Undelivered;
  }

  lemma {:induction false} SameFailures(s: State, s': State, user: nat, action: Action, targets: seq<string>)
    requires forall uid :: uid in targets ==> (Owned(s', user, uid) <==> Owned(s, user, uid))
    ensures Failures(s', user, action, targets) == Failures(s, user, action, targets)
    ensures Hits(s', user, action, targets) == Hits(s, user, action, targets)
  {
    hide Owned;
    if targets != [] {
      var n := |targets| - 1;
      assert forall uid :: uid in targets[..n] ==> uid in targets;
      SameFailures(s, s', user, action, targets[..n]);
      assert targets[n] in targets;
    }
  }

  lemma {:induction false} AllFail(s: State, user: nat, action: Action, targets: seq<string>)
    requires forall uid :: uid in targets ==> !Succeeds(s, user, action, uid)
    ensures Failures(s, user, action, targets) == targets
  {
    hide Succeeds;
    if targets != [] {
      var n := |targets| - 1;
      assert forall uid :: uid in targets[..n] ==> uid in targets;
      AllFail(s, user, action, targets[..n]);
      assert targets[n] in targets;
      assert targets == targets[..n] + [targets[n]];
    }
  }

  lemma NoneHit(s: State, user: nat, action: Action, targets: seq<string>)
    requires forall uid :: uid in targets ==> !Succeeds(s, user, action, uid)
    ensures Hits(s, user, action, targets) == {}
  {
    hide Succeeds;
  }

  /**
   * Repeating an add, a remove, an archive or an unarchive gives the same counts and changes nothing but
   * the revisions that archiving and unarchiving raise on every save; repeating a delete fails every target.
   */
  lemma RepeatConverges(s: State, user: nat, action: Action, uids: seq<string>)
    requires Aborted(s, user, action) == None && !action.Unknown?
    ensures var once := Bulk(s, user, action, uids);
            && Aborted(once, user, action) == None
            && SameButRevisions(once, Bulk(once, user, action, uids))
            && (!action.Archive? && !action.Unarchive? ==> Bulk(once, user, action, uids) == once)
            && OutcomeOf(once, user, action, uids)
               == (if action.Delete? then Outcome(|Targets(uids)|, 0, |Targets(uids)|, Targets(uids))
                   else OutcomeOf(s, user, action, uids))
  {
    var targets := Targets(uids);
    var hits := Hits(s, user, action, targets);
    var once := Bulk(s, user, action, uids);
    assert Aborted(once, user, action) == None;
    forall uid ensures Owned(once, user, uid) <==> Owned(s, user, uid) && !(action.Delete? && uid in hits) {
      OwnedAfter(s, user, hits, action, uid);
    }
    if action.Delete? {
      AllFail(once, user, action, targets);
      NoneHit(once, user, action, targets);
      NoHitsNoChange(once, user, action);
    } else {
      SameFailures(s, once, user, action, targets);
      AfterTwice(s, user, hits, action);
    }
  }

  lemma NoHitsNoChange(s: State, user: nat, action: Action)
    ensures After(s, user, {}, action) == s
  {
  }

  /** Saves of hit contacts show: archiving or unarchiving changes nothing only when there is no one to hit. */
  lemma SavingShows(s: State, user: nat, hits: set<string>, action: Action, uid: string)
    requires action.Archive? || action.Unarchive?
    requires uid in hits && Key(user, uid) in s.contacts
    ensures var k := Key(user, uid);
            After(s, user, hits, action).contacts[k]
            == s.contacts[k].(archived := action.Archive?, revision := s.contacts[k].revision + 1)
  {
    hide Retired, Undelivered, Cleared;
  }

  lemma TargetIsHit(s: State, user: nat, action: Action, uids: seq<string>, uid: string)
    requires !action.Unknown?
    ensures uid in Hits(s, user, action, Targets(uids)) <==> uid in uids && Owned(s, user, uid)
  {
    hide Owned;
    TargetsAreTheSet(uids);
    assert uid in Targets(uids) <==> uid in Elements(Targets(uids));
    assert uid in uids <==> uid in Elements(uids);
  }

  /**
   * The second of two equal requests changes nothing exactly when it neither archives nor unarchives, or
   * none of its targets is a live contact of the caller.
   */
  lemma RepeatIsNoOpExactly(s: State, user: nat, action: Action, uids: seq<string>)
    requires Aborted(s, user, action) == None && !action.Unknown?
    ensures var once := Bulk(s, user, action, uids);
            Bulk(once, user, action, uids) == once
            <==> !(action.Archive? || action.Unarchive?) || forall uid :: uid in uids ==> !Owned(s, user, uid)
  {
    hide Owned, After, Hits, Targets, Aborted;
    RepeatConverges(s, user, action, uids);
    var once := Bulk(s, user, action, uids);
    var hits, again := Hits(s, user, action, Targets(uids)), Hits(once, user, action, Targets(uids));
    if action.Archive? || action.Unarchive? {
      if uid :| uid in uids && Owned(s, user, uid) {
        TargetIsHit(s, user, action, uids, uid);
        OwnedAfter(s, user, hits, action, uid);
        TargetIsHit(once, user, action, uids, uid);
        OwnedIsThere(once, user, uid);
        SavingShows(once, user, again, action, uid);
      } else {
        forall uid ensures uid !in again {
          TargetIsHit(once, user, action, uids, uid);
          OwnedAfter(s, user, hits, action, uid);
        }
        assert again == {};
        NoHitsNoChange(once, user, action);
      }
    }
  }

  lemma OwnedIsThere(s: State, user: nat, uid: string)
    requires Owned(s, user, uid)
    ensures Key(user, uid) in s.contacts
  {
  }

  /** One contact archived twice, and one unarchived twice: the flag stays, the revision does not. */
  lemma SavingTwiceSavesTwice(s: State, user: nat, action: Action, uid: string)
    requires Owned(s, user, uid) && (action.Archive? || action.Unarchive?)
    ensures var once, k := Bulk(s, user, action, [uid]), Key(user, uid);
            var twice := Bulk(once, user, action, [uid]);
            && once.contacts[k].archived == twice.contacts[k].archived == action.Archive?
            && once.contacts[k].revision == s.contacts[k].revision + 1
            && twice.contacts[k].revision == s.contacts[k].revision + 2
  {
    hide After, Hits, Targets;
    var once := Bulk(s, user, action, [uid]);
    var hits := Hits(s, user, action, Targets([uid]));
    assert [uid][0] in [uid];
    TargetIsHit(s, user, action, [uid], uid);
    SavingShows(s, user, hits, action, uid);
    OwnedAfter(s, user, hits, action, uid);
    TargetIsHit(once, user, action, [uid], uid);
    SavingShows(once, user, Hits(once, user, action, Targets([uid])), action, uid);
  }

  // What a request may touch, and what it reaches

  /** Rows of contacts outside `hits` are left as they were. */
  ghost predicate Untouched(s: State, s': State, user: nat, hits: set<string>) {
    && s'.circles == s.circles && s'.tags == s.tags
    && s'.contacts.Keys == s.contacts.Keys && s'.reminders.Keys == s.reminders.Keys
    && (forall k :: k in s.contacts && !Hit(k, user, hits) ==> s'.contacts[k] == s.contacts[k])
    && (forall l :: !LinkHit(l, user, hits) ==>
          (l in s'.members <==> l in s.members) && (l in s'.labels <==> l in s.labels))
    && (forall r :: r in s.reminders && !Hit(s.reminders[r].contact, user, hits) ==> s'.reminders[r] == s.reminders[r])
    && (forall d :: d in s'.deliveries ==> d in s.deliveries && s'.deliveries[d] == s.deliveries[d])
    && forall d :: d in s.deliveries && s.deliveries[d] in s.reminders ==>
         Hit(s.reminders[s.deliveries[d]].contact, user, hits) || d in s'.deliveries
  }

  lemma AfterTouchesHitsOnly(s: State, user: nat, hits: set<string>, action: Action)
    ensures Untouched(s, After(s, user, hits, action), user, hits)
  {
    match action
    case AddCircle(c) => AddedTouches(s.members, user, c, hits);
    case RemoveCircle(c) =>
    case AddTag(t) => AddedTouches(s.labels, user, t, hits);
    case RemoveTag(t) =>
    case Archive => hide Added, Removed, Cleared;
    case Unarchive => hide Added, Removed, Cleared;
    case Delete => hide Added, Removed;
    case Unknown(_) =>
  }

  lemma AddedTouches(links: set<Link>, user: nat, group: string, hits: set<string>)
    ensures forall l :: !LinkHit(l, user, hits) ==> (l in Added(links, user, group, hits) <==> l in links)
  {
    hide Linked;
  }

  /** Only rows of the caller's own, requested, live contacts change. */
  lemma OnlyOwnedTargetsChange(s: State, user: nat, action: Action, uids: seq<string>)
    ensures exists hits: set<string> ::
              && (forall uid :: uid in hits ==> uid in uids && Owned(s, user, uid))
              && Untouched(s, Bulk(s, user, action, uids), user, hits)
  {
    hide Owned, Untouched, After, Aborted;
    var hits := Hits(s, user, action, Targets(uids));
    TargetsAreTheSet(uids);
    assert forall uid :: uid in Targets(uids) <==> uid in Elements(Targets(uids));
    assert forall uid :: uid in uids <==> uid in Elements(uids);
    assert forall uid :: uid in hits ==> uid in uids && Owned(s, user, uid);
    AfterTouchesHitsOnly(s, user, hits, action);
    NothingTouched(s, user, hits);
    assert Untouched(s, Bulk(s, user, action, uids), user, hits);
  }

  lemma NothingTouched(s: State, user: nat, hits: set<string>)
    ensures Untouched(s, s, user, hits)
  {
  }

  /** Every owned target reaches the state the action names. */
  lemma TargetsReachTheState(s: State, user: nat, action: Action, uids: seq<string>, uid: string)
    requires Aborted(s, user, action) == None && uid in uids && Owned(s, user, uid)
    ensures var s', k := Bulk(s, user, action, uids), Key(user, uid);
            match action
            case AddCircle(c) => Linked(s'.members, c, uid)
            case RemoveCircle(c) => Link(c, user, uid) !in s'.members
            case AddTag(t) => Linked(s'.labels, t, uid)
            case RemoveTag(t) => Link(t, user, uid) !in s'.labels
            case Archive => s'.contacts[k].archived && Silent(s', k)
            case Unarchive => !s'.contacts[k].archived
            case Delete =>
              && s'.contacts[k].deleted && Silent(s', k)
              && forall l :: l in s'.members + s'.labels ==> !(l.user == user && l.uid == uid)
            case Unknown(_) => s' == s
  {
    var hits := Hits(s, user, action, Targets(uids));
    TargetsAreTheSet(uids);
    assert uid in Elements(uids) && uid in Targets(uids);
    hide Targets, Owned, Linked;
    match action
    case AddCircle(c) => assert uid in hits; AddedTwice(s.members, user, c, hits);
    case AddTag(t) => assert uid in hits; AddedTwice(s.labels, user, t, hits);
    case RemoveCircle(c) => assert uid in hits;
    case RemoveTag(t) => assert uid in hits;
    case Archive => assert uid in hits;
    case Unarchive => assert uid in hits;
    case Delete => assert uid in hits;
    case Unknown(_) =>
  }

  /** No live reminder of the contact, and no delivery of any reminder of it. */
  ghost predicate Silent(s: State, k: Key) {
    && (forall r :: r in s.reminders && s.reminders[r].contact == k ==> s.reminders[r].deleted)
    && forall d :: d in s.deliveries && s.deliveries[d] in s.reminders ==> s.reminders[s.deliveries[d]].contact != k
  }

  // Row by row

  /** A live contact of the user that the request names. */
  predicate IsTarget(s: State, user: nat, uids: seq<string>, k: Key) {
    k.user == user && k.uid in uids && k in s.contacts && !s.contacts[k].deleted
  }

  lemma HitIsTarget(s: State, user: nat, action: Action, uids: seq<string>, k: Key)
    requires !action.Unknown?
    ensures Hit(k, user, Hits(s, user, action, Targets(uids))) <==> IsTarget(s, user, uids, k)
  {
    hide Hits, Targets;
    TargetIsHit(s, user, action, uids, k.uid);
  }

  ghost predicate LinksAdded(s: State, user: nat, uids: seq<string>, group: string, links: set<Link>,
                             links': set<Link>)
  {
    forall l :: l in links' <==>
      || l in links
      || (l.group == group && IsTarget(s, user, uids, Key(l.user, l.uid))
          && !exists m :: m in links && m.group == group && m.uid == l.uid)
  }

  ghost predicate LinksRemoved(s: State, user: nat, uids: seq<string>, group: string, links: set<Link>,
                               links': set<Link>)
  {
    forall l :: l in links' <==> l in links && !(l.group == group && IsTarget(s, user, uids, Key(l.user, l.uid)))
  }

  /** The targets' links are gone, whatever the group. */
  ghost predicate LinksCleared(s: State, user: nat, uids: seq<string>, links: set<Link>, links': set<Link>) {
    forall l :: l in links' <==> l in links && !IsTarget(s, user, uids, Key(l.user, l.uid))
  }

  /** The targets' reminders are deleted and their deliveries gone; nothing else of either table changes. */
  ghost predicate RemindersRetired(s: State, s': State, user: nat, uids: seq<string>) {
    && s'.reminders.Keys == s.reminders.Keys
    && (forall r :: r in s.reminders ==>
          s'.reminders[r] == if IsTarget(s, user, uids, s.reminders[r].contact) then s.reminders[r].(deleted := true)
                             else s.reminders[r])
    && (forall d :: d in s'.deliveries <==>
          d in s.deliveries && !(s.deliveries[d] in s.reminders
                                 && IsTarget(s, user, uids, s.reminders[s.deliveries[d]].contact)))
    && forall d :: d in s'.deliveries ==> s'.deliveries[d] == s.deliveries[d]
  }

  ghost predicate ContactsSaved(s: State, s': State, user: nat, uids: seq<string>, archived: bool) {
    && s'.contacts.Keys == s.contacts.Keys
    && forall k :: k in s.contacts ==>
         s'.contacts[k] == if IsTarget(s, user, uids, k)
                           then Contact(s.contacts[k].deleted, archived, s.contacts[k].revision + 1)
                           else s.contacts[k]
  }

  ghost predicate ContactsDeleted(s: State, s': State, user: nat, uids: seq<string>) {
    && s'.contacts.Keys == s.contacts.Keys
    && forall k :: k in s.contacts ==>
         s'.contacts[k] == if IsTarget(s, user, uids, k)
                           then Contact(true, s.contacts[k].archived, s.contacts[k].revision)
                           else s.contacts[k]
  }

  /** What a request leaves, link by link and row by row; what an action does not name is as before. */
  lemma BulkExactly(s: State, user: nat, action: Action, uids: seq<string>)
    requires Aborted(s, user, action) == None
    ensures var s' := Bulk(s, user, action, uids);
            match action
            case AddCircle(c) =>
              LinksAdded(s, user, uids, c, s.members, s'.members) && s' == s.(members := s'.members)
            case RemoveCircle(c) =>
              LinksRemoved(s, user, uids, c, s.members, s'.members) && s' == s.(members := s'.members)
            case AddTag(t) =>
              LinksAdded(s, user, uids, t, s.labels, s'.labels) && s' == s.(labels := s'.labels)
            case RemoveTag(t) =>
              LinksRemoved(s, user, uids, t, s.labels, s'.labels) && s' == s.(labels := s'.labels)
            case Archive =>
              && ContactsSaved(s, s', user, uids, true) && RemindersRetired(s, s', user, uids)
              && s' == s.(contacts := s'.contacts, reminders := s'.reminders, deliveries := s'.deliveries)
            case Unarchive =>
              ContactsSaved(s, s', user, uids, false) && s' == s.(contacts := s'.contacts)
            case Delete =>
              && ContactsDeleted(s, s', user, uids) && RemindersRetired(s, s', user, uids)
              && LinksCleared(s, user, uids, s.members, s'.members) && LinksCleared(s, user, uids, s.labels, s'.labels)
              && s'.circles == s.circles && s'.tags == s.tags
            case Unknown(_) => s' == s
  {
    if !action.Unknown? {
      hide Hits, Targets, IsTarget;
      var hits := Hits(s, user, action, Targets(uids));
      forall k ensures Hit(k, user, hits) <==> IsTarget(s, user, uids, k) {
        HitIsTarget(s, user, action, uids, k);
      }
      AfterExactly(s, user, action, uids, hits);
    }
  }

  lemma AfterExactly(s: State, user: nat, action: Action, uids: seq<string>, hits: set<string>)
    requires forall k :: Hit(k, user, hits) <==> IsTarget(s, user, uids, k)
    ensures var s' := After(s, user, hits, action);
            match action
            case AddCircle(c) => LinksAdded(s, user, uids, c, s.members, s'.members)
            case RemoveCircle(c) => LinksRemoved(s, user, uids, c, s.members, s'.members)
            case AddTag(t) => LinksAdded(s, user, uids, t, s.labels, s'.labels)
            case RemoveTag(t) => LinksRemoved(s, user, uids, t, s.labels, s'.labels)
            case Archive => ContactsSaved(s, s', user, uids, true) && RemindersRetired(s, s', user, uids)
            case Unarchive => ContactsSaved(s, s', user, uids, false)
            case Delete =>
              && ContactsDeleted(s, s', user, uids) && RemindersRetired(s, s', user, uids)
              && LinksCleared(s, user, uids, s.members, s'.members) && LinksCleared(s, user, uids, s.labels, s'.labels)
            case Unknown(_) => true
  {
    hide IsTarget;
    forall l: Link ensures LinkHit(l, user, hits) <==> Hit(Key(l.user, l.uid), user, hits) {
    }
    match action
    case AddCircle(c) => AddedExactly(s.members, user, c, hits);
    case AddTag(t) => AddedExactly(s.labels, user, t, hits);
    case _ =>
  }

  lemma AddedExactly(links: set<Link>, user: nat, group: string, hits: set<string>)
    ensures forall l :: l in Added(links, user, group, hits)
                        <==> l in links || (l.group == group && LinkHit(l, user, hits) && !Linked(links, group, l.uid))
  {
    hide Linked;
  }

  /** A request stops at an empty id, or one that is no circle, or no tag, of the user. */
  lemma AbortedExactly(s: State, user: nat, id: string)
    ensures var none, missing := Some(IdRequired), Some(GroupNotFound(id));
            && Aborted(s, user, AddCircle(id)) == Aborted(s, user, RemoveCircle(id))
               == (if id == "" then none else if id in s.circles && s.circles[id] == user then None else missing)
            && Aborted(s, user, AddTag(id)) == Aborted(s, user, RemoveTag(id))
               == (if id == "" then none else if id in s.tags && s.tags[id] == user then None else missing)
            && Aborted(s, user, Archive) == Aborted(s, user, Unarchive) == Aborted(s, user, Delete)
               == Aborted(s, user, Unknown(id)) == None
  {
  }

  // Contact by contact

  lemma ContactsOneMore(contacts: map<Key, Contact>, user: nat, hits: set<string>, uid: string, f: Contact -> Contact)
    requires uid !in hits
    ensures Changed(Changed(contacts, user, hits, f), user, {uid}, f) == Changed(contacts, user, hits + {uid}, f)
  {
  }

  lemma LinksOneMore(links: set<Link>, user: nat, group: string, hits: set<string>, uid: string)
    ensures Removed(Removed(links, user, group, hits), user, group, {uid}) == Removed(links, user, group, hits + {uid})
    ensures Cleared(Cleared(links, user, hits), user, {uid}) == Cleared(links, user, hits + {uid})
  {
  }

  /** Acting on one more contact is acting on one contact more. */
  lemma AfterOneMore(s: State, user: nat, hits: set<string>, uid: string, action: Action)
    requires uid !in hits
    ensures After(After(s, user, hits, action), user, {uid}, action) == After(s, user, hits + {uid}, action)
  {
    hide Added, Removed, Cleared, Changed, Retired, Undelivered;
    match action
    case AddCircle(c) => AddedOneMore(s.members, user, c, hits, uid);
    case RemoveCircle(c) => LinksOneMore(s.members, user, c, hits, uid);
    case AddTag(t) => AddedOneMore(s.labels, user, t, hits, uid);
    case RemoveTag(t) => LinksOneMore(s.labels, user, t, hits, uid);
    case Archive => SilencedOneMore(s, user, hits, uid, ArchivedAs(true), false);
    case Unarchive => ContactsOneMore(s.contacts, user, hits, uid, ArchivedAs(false));
    case Delete => SilencedOneMore(s, user, hits, uid, DELETED, true);
    case Unknown(_) =>
  }

  /** The two actions that retire reminders, with or without the links. */
  lemma SilencedOneMore(s: State, user: nat, hits: set<string>, uid: string, f: Contact -> Contact, links: bool)
    requires uid !in hits
    ensures var once, more := Silenced(s, user, hits, f, links), hits + {uid};
            Silenced(once, user, {uid}, f, links) == Silenced(s, user, more, f, links)
  {
    hide Removed, Cleared, Changed, Retired, Undelivered;
    ContactsOneMore(s.contacts, user, hits, uid, f);
    LinksOneMore(s.members, user, "", hits, uid);
    LinksOneMore(s.labels, user, "", hits, uid);
    RemindersOneMore(s, user, hits, uid);
    var once := Silenced(s, user, hits, f, links);
    DeliveriesIgnoreContacts(once, s.(reminders := once.reminders, deliveries := once.deliveries), user, {uid});
  }

  lemma AddedOneMore(links: set<Link>, user: nat, group: string, hits: set<string>, uid: string)
    requires uid !in hits
    ensures Added(Added(links, user, group, hits), user, group, {uid}) == Added(links, user, group, hits + {uid})
  {
    var once := Added(links, user, group, hits);
    assert Linked(once, group, uid) <==> Linked(links, group, uid) by {
      if l :| l in links && l.group == group && l.uid == uid {
        assert l in once;
      }
    }
  }

  lemma RemindersOneMore(s: State, user: nat, hits: set<string>, uid: string)
    ensures var once := s.(reminders := Retired(s.reminders, user, hits), deliveries := Undelivered(s, user, hits));
            && Retired(once.reminders, user, {uid}) == Retired(s.reminders, user, hits + {uid})
            && Undelivered(once, user, {uid}) == Undelivered(s, user, hits + {uid})
  {
  }

  // The handler

  method Dedupe(uids: seq<string>) returns (targets: seq<string>)
    ensures targets == Targets(uids)
  {
    var seen: set<string> := {};
    targets := [];
    for i := 0 to |uids|
      invariant targets == Targets(uids[..i]) && seen == Elements(targets)
    {
      assert uids[..i + 1][..i] == uids[..i];
      if uids[i] !in seen {
        seen := seen + {uids[i]};
        targets := targets + [uids[i]];
      }
    }
    assert uids[..|uids|] == uids;
  }

  class Crm {
    var contacts: map<Key, Contact>
    var circles: map<string, nat>
    var tags: map<string, nat>
    var members: set<Link>
    var labels: set<Link>
    var reminders: map<nat, Reminder>
    var deliveries: map<nat, nat>

    constructor (s: State)
      ensures Current() == s
    {
      contacts, circles, tags := s.contacts, s.circles, s.tags;
      members, labels, reminders, deliveries := s.members, s.labels, s.reminders, s.deliveries;
    }

    function Current(): State
      reads this
    {
      State(contacts, circles, tags, members, labels, reminders, deliveries)
    }

    /** Delivery state first, while the reminders still say whose they are; then the reminders. */
    method RetireReminders(k: Key)
      modifies this`reminders, this`deliveries
      ensures reminders == Retired(old(reminders), k.user, {k.uid})
      ensures deliveries == Undelivered(old(Current()), k.user, {k.uid})
    {
      deliveries := map d | d in deliveries && !(deliveries[d] in reminders && reminders[deliveries[d]].contact == k) ::
        deliveries[d];
      reminders := map r | r in reminders ::
        if reminders[r].contact == k && !reminders[r].deleted then reminders[r].(deleted := true) else reminders[r];
      assert forall c: Key :: Hit(c, k.user, {k.uid}) <==> c == k;
    }

    method SaveArchived(k: Key, archived: bool)
      requires k in contacts
      modifies this`contacts
      ensures contacts == Changed(old(contacts), k.user, {k.uid}, ArchivedAs(archived))
    {
      contacts := contacts[k := contacts[k].(archived := archived, revision := contacts[k].revision + 1)];
      assert forall c: Key :: Hit(c, k.user, {k.uid}) <==> c == k;
    }

    /** The contact's associations, then the contact. */
    method DeleteContact(k: Key)
      requires k in contacts
      modifies this
      ensures Current() == After(old(Current()), k.user, {k.uid}, Delete)
    {
      RetireReminders(k);
      members := set l | l in members && !(l.user == k.user && l.uid == k.uid);
      labels := set l | l in labels && !(l.user == k.user && l.uid == k.uid);
      contacts := contacts[k := contacts[k].(deleted := true)];
      hide Retired, Undelivered;
      assert forall c: Key :: Hit(c, k.user, {k.uid}) <==> c == k;
    }

    /** `runBulkContactAction`. */
    method RunAction(user: nat, uid: string, action: Action) returns (ok: bool)
      requires Key(user, uid) in contacts
      modifies this
      ensures ok == !action.Unknown?
      ensures Current() == After(old(Current()), user, {uid}, action)
    {
      hide Retired, Undelivered, Cleared;
      var k := Key(user, uid);
      ok := true;
      match action {
        case AddCircle(c) =>
          if !Linked(members, c, uid) {
            members := members + {Link(c, user, uid)};
          }
        case RemoveCircle(c) => members := members - {Link(c, user, uid)};
        case AddTag(t) =>
          if !Linked(labels, t, uid) {
            labels := labels + {Link(t, user, uid)};
          }
        case RemoveTag(t) => labels := labels - {Link(t, user, uid)};
        case Archive =>
          RetireReminders(k);
          SaveArchived(k, true);
        case Unarchive => SaveArchived(k, false);
        case Delete => DeleteContact(k);
        case Unknown(_) => ok := false;
      }
    }

    /** One target of a request that began in `start` and has dealt with `done`. */
    method RunTarget(user: nat, action: Action, uid: string, owned: bool, ghost start: State, ghost done: seq<string>)
      returns (ok: bool)
      requires Current() == After(start, user, Hits(start, user, action, done), action)
      requires uid !in done && owned == Owned(start, user, uid)
      modifies this
      ensures ok == Succeeds(start, user, action, uid)
      ensures Current() == After(start, user, Hits(start, user, action, done + [uid]), action)
    {
      hide After, Succeeds, Owned, Hits;
      ghost var hits := Hits(start, user, action, done);
      OneMoreTarget(start, user, action, done, uid);
      SucceedsWhen(start, user, action, uid);
      ok := owned;
      if ok {
        StillThere(start, user, hits, action, uid);
        UnknownDoesNothing(Current(), user, {uid}, action);
        ok := RunAction(user, uid, action);
        if ok {
          AfterOneMore(start, user, hits, uid, action);
        }
      }
    }

    /** `BulkContactOperation`. */
    method Run(user: nat, action: Action, uids: seq<string>) returns (r: Result<Outcome, Abort>)
      modifies this
      ensures r == match Aborted(old(Current()), user, action)
                   case Some(a) => Err(a)
                   case None => Ok(OutcomeOf(old(Current()), user, action, uids))
      ensures Current() == Bulk(old(Current()), user, action, uids)
    {
      hide After, Aborted, Succeeds, Owned, Hits;
      var abort := Aborted(Current(), user, action);
      if abort.Some? {
        return Err(abort.value);
      }
      var targets := Dedupe(uids);
      TargetsAreTheSet(uids);
      var o := RunAll(user, action, targets);
      return Ok(o);
    }

    method RunAll(user: nat, action: Action, targets: seq<string>) returns (o: Outcome)
      requires Distinct(targets)
      modifies this
      ensures Current() == After(old(Current()), user, Hits(old(Current()), user, action, targets), action)
      ensures o == Outcome(|targets|, |Hits(old(Current()), user, action, targets)|,
                           |Failures(old(Current()), user, action, targets)|,
                           Failures(old(Current()), user, action, targets))
    {
      hide After, Succeeds, Owned, Hits;
      ghost var start := Current();
      var owned := set uid | uid in targets && Owned(Current(), user, uid);
      var succeeded, failed, failures := 0, 0, [];
      NoHitsNoChange(start, user, action);
      NoTargets(start, user, action);
      assert targets[..0] == [];
      for i := 0 to |targets|
        invariant Current() == After(start, user, Hits(start, user, action, targets[..i]), action)
        invariant succeeded == |Hits(start, user, action, targets[..i])|
        invariant failures == Failures(start, user, action, targets[..i]) && failed == |failures|
      {
        assert targets[..i + 1] == targets[..i] + [targets[i]] && targets[..i + 1][..i] == targets[..i];
        assert targets[i] in targets;
        OneMoreTarget(start, user, action, targets[..i], targets[i]);
        var ok := RunTarget(user, action, targets[i], targets[i] in owned, start, targets[..i]);
        if ok {
          succeeded := succeeded + 1;
        } else {
          failed := failed + 1;
          failures := failures + [targets[i]];
        }
      }
      assert targets[..|targets|] == targets;
      o := Outcome(|targets|, succeeded, failed, failures);
    }
  }

  lemma NoTargets(s: State, user: nat, action: Action)
    ensures Hits(s, user, action, []) == {}
  {
  }

  lemma SucceedsWhen(s: State, user: nat, action: Action, uid: string)
    ensures Succeeds(s, user, action, uid) <==> Owned(s, user, uid) && !action.Unknown?
  {
  }

  lemma StillThere(s: State, user: nat, hits: set<string>, action: Action, uid: string)
    requires Owned(s, user, uid)
    ensures Key(user, uid) in After(s, user, hits, action).contacts
  {
  }

  lemma UnknownDoesNothing(s: State, user: nat, hits: set<string>, action: Action)
    ensures action.Unknown? ==> After(s, user, hits, action) == s
  {
  }
}

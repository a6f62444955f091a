/**
 * Life events and the yearly reminder rows materialised from them: every event transaction
 * hard-deletes the event's old reminder with its delivery state and creates at most one new one.
 */
module LifeEvents {
  import opened Wrappers
  import Gregorian
  import opened NextReminder

  type EventId = string

  datatype Event = Event(user: nat, entity: string, date: Option<PartialDate>, remind: bool,
                         revision: nat, deleted: bool)

  datatype Reminder = Reminder(user: nat, contact: nat, event: Option<EventId>, remindAt: Instant,
                               recurrence: string, deleted: bool)

  /** `contacts` maps (user, vCard UID) of a live contact to its id; `deliveries` a delivery to its reminder. */
  datatype Tables = Tables(contacts: map<(nat, string), nat>, events: map<EventId, Event>,
                           reminders: map<nat, Reminder>, deliveries: map<nat, nat>)

  function RemindersOf(reminders: map<nat, Reminder>, id: EventId): set<nat> {
    set r | r in reminders && reminders[r].event == Some(id)
  }

  function DropDeliveries(deliveries: map<nat, nat>, gone: set<nat>): map<nat, nat> {
    map d | d in deliveries && deliveries[d] !in gone :: deliveries[d]
  }

  /** Whether an event materialises a reminder. */
  predicate Materialises(t: Tables, e: Event) {
    e.remind && EventHasMonthDay(e.date) && (e.user, e.entity) in t.contacts
  }

  function ReminderFor(t: Tables, id: EventId, e: Event, now: Instant, offset: int): Reminder
    requires Materialises(t, e)
  {
    Reminder(e.user, t.contacts[(e.user, e.entity)], Some(id),
             NextRemindAt(e.date.value.month.value, e.date.value.day.value, now, offset), "yearly", false)
  }

  /** The tables once an event's reminder, soft-deleted or not, is gone with its deliveries. */
  function Unreminded(t: Tables, id: EventId): Tables {
    var gone := RemindersOf(t.reminders, id);
    t.(reminders := t.reminders - gone, deliveries := DropDeliveries(t.deliveries, gone))
  }

  function Synced(t: Tables, id: EventId, e: Event, newId: nat, now: Instant, offset: int): Tables {
    var cleared := Unreminded(t, id);
    if Materialises(t, e) then cleared.(reminders := cleared.reminders[newId := ReminderFor(t, id, e, now, offset)])
    else cleared
  }

  datatype Step =
    | CreateEvent(id: EventId, event: Event, newId: nat, now: Instant, offset: int)
    | UpdateEvent(id: EventId, event: Event, newId: nat, now: Instant, offset: int)
    | DeleteEvent(id: EventId)
    | AddReminder(newId: nat, reminder: Reminder)
    | EditReminder(reminderId: nat, reminder: Reminder)
    | SoftDeleteReminder(reminderId: nat)
    | Deliver(delivery: nat, reminderId: nat)
    | AddContact(user: nat, uid: string, contact: nat)
    | DeleteContact(user: nat, uid: string)
    | SyncWedding(id: EventId, user: nat, entity: string, date: Option<PartialDate>, bare: bool)

  predicate OwnsContact(contacts: map<(nat, string), nat>, user: nat, contact: nat) {
    exists k :: k in contacts && k.0 == user && contacts[k] == contact
  }

  /**
   * A manual reminder is for one of its user's contacts. The request may carry any life event id, which
   * the handler stores unchecked; an edit leaves it alone.
   */
  predicate Enabled(t: Tables, step: Step) {
    match step
    case CreateEvent(id, e, newId, _, _) => id !in t.events && newId !in t.reminders
    case UpdateEvent(id, e, newId, _, _) => id in t.events && e.user == t.events[id].user && newId !in t.reminders
    case DeleteEvent(id) => id in t.events && !t.events[id].deleted
    case AddReminder(newId, r) => newId !in t.reminders && OwnsContact(t.contacts, r.user, r.contact)
    case EditReminder(r, edited) => r in t.reminders && edited.event == t.reminders[r].event
    case SoftDeleteReminder(r) => r in t.reminders
    case Deliver(d, r) => d !in t.deliveries && r in t.reminders
    case AddContact(user, uid, contact) => (user, uid) !in t.contacts
    case DeleteContact(user, uid) => (user, uid) in t.contacts
    case SyncWedding(id, user, entity, date, _) => WeddingOf(t.events, id, user, entity, date)
  }

  /** The contact's live wedding event, or the id of the one a wedding date creates. */
  predicate WeddingOf(events: map<EventId, Event>, id: EventId, user: nat, entity: string, date: Option<PartialDate>) {
    if id in events then !events[id].deleted && events[id].user == user && events[id].entity == entity else date.Some?
  }

  /**
   * The wedding date of a saved contact goes to its wedding event, past the event's transactions; an event
   * without date, reminder or, when `bare`, anything to tell is deleted.
   */
  function WeddingSynced(events: map<EventId, Event>, id: EventId, user: nat, entity: string,
      date: Option<PartialDate>, bare: bool): map<EventId, Event>
  {
    if id !in events then events[id := Event(user, entity, date, false, 1, false)]
    else
      var e := events[id];
      if e.date == date then events
      else if date.None? && bare && !e.remind then events[id := e.(date := date, deleted := true)]
      else events[id := e.(date := date, revision := e.revision + 1)]
  }

  /** The event update commits only on the live row at the revision that was loaded. */
  predicate CanSave(t: Tables, id: EventId, loaded: nat) {
    id in t.events && !t.events[id].deleted && t.events[id].revision == loaded
  }

  /** The cascade of a contact delete: delivery state, then reminders, then life events. */
  function ContactDeleted(t: Tables, user: nat, uid: string): Tables
    requires (user, uid) in t.contacts
  {
    var contact := t.contacts[(user, uid)];
    var its := set r | r in t.reminders && t.reminders[r].contact == contact && t.reminders[r].user == user;
    Tables(t.contacts - {(user, uid)},
           map id | id in t.events ::
             if t.events[id].entity == uid && t.events[id].user == user then t.events[id].(deleted := true)
             else t.events[id],
           map r | r in t.reminders :: if r in its then t.reminders[r].(deleted := true) else t.reminders[r],
           DropDeliveries(t.deliveries, its))
  }

  function Next(t: Tables, step: Step): Tables
    requires Enabled(t, step)
  {
    match step
    case CreateEvent(id, e, newId, now, offset) =>
      Synced(t.(events := t.events[id := e.(revision := 1, deleted := false)]), id, e, newId, now, offset)
    case UpdateEvent(id, e, newId, now, offset) =>
      if CanSave(t, id, e.revision) then
        var written := t.(events := t.events[id := e.(revision := e.revision + 1, deleted := false)]);
        Synced(written, id, e, newId, now, offset)
      else t
    case DeleteEvent(id) =>
      var cleared := Unreminded(t, id);
      cleared.(events := cleared.events[id := cleared.events[id].(deleted := true)])
    case AddReminder(newId, r) => t.(reminders := t.reminders[newId := r])
    case EditReminder(r, edited) => t.(reminders := t.reminders[r := edited])
    case SoftDeleteReminder(r) => t.(reminders := t.reminders[r := t.reminders[r].(deleted := true)])
    case Deliver(d, r) => t.(deliveries := t.deliveries[d := r])
    case AddContact(user, uid, contact) => t.(contacts := t.contacts[(user, uid) := contact])
    case DeleteContact(user, uid) => ContactDeleted(t, user, uid)
    case SyncWedding(id, user, entity, date, bare) =>
      t.(events := WeddingSynced(t.events, id, user, entity, date, bare))
  }

  // What the steps write

  predicate IsReminderOf(t: Tables, r: nat, user: nat, contact: nat) {
    r in t.reminders && t.reminders[r].user == user && t.reminders[r].contact == contact
  }

  /** What each step makes of the event rows; only an event's own steps and a contact's delete change them. */
  lemma StepWritesEvents(t: Tables, step: Step)
    requires Enabled(t, step)
    ensures var events, events' := t.events, Next(t, step).events;
            match step
            case CreateEvent(id, e, _, _, _) =>
              events' == events[id := Event(e.user, e.entity, e.date, e.remind, 1, false)]
            case UpdateEvent(id, e, _, _, _) =>
              && (!events[id].deleted && events[id].revision == e.revision
                  ==> events' == events[id := Event(e.user, e.entity, e.date, e.remind, e.revision + 1, false)])
              && (events[id].deleted || events[id].revision != e.revision ==> Next(t, step) == t)
            case DeleteEvent(id) => events' == events[id := events[id].(deleted := true)]
            case DeleteContact(user, uid) =>
              && events'.Keys == events.Keys
              && forall id :: id in events ==>
                   events'[id] == if events[id].user == user && events[id].entity == uid
                                  then events[id].(deleted := true) else events[id]
            case SyncWedding(id, user, entity, date, bare) =>
              if id !in events then events' == events[id := Event(user, entity, date, false, 1, false)]
              else if events[id].date == date then events' == events
              else if date == None && bare && !events[id].remind
              then events' == events[id := events[id].(date := None, deleted := true)]
              else events' == events[id := events[id].(date := date, revision := events[id].revision + 1)]
            case _ => events' == events
  {
    hide Materialises, NextRemindAt;
  }

  /** What the steps that sync no event make of reminders, deliveries and contacts. */
  lemma StepWritesReminders(t: Tables, step: Step)
    requires Enabled(t, step)
    ensures var t' := Next(t, step);
            match step
            case CreateEvent(_, _, _, _, _) => t'.contacts == t.contacts
            case UpdateEvent(_, _, _, _, _) => t'.contacts == t.contacts
            case DeleteEvent(id) =>
              && t'.contacts == t.contacts
              && (forall r :: r in t'.reminders <==> r in t.reminders && t.reminders[r].event != Some(id))
              && (forall r :: r in t'.reminders ==> t'.reminders[r] == t.reminders[r])
              && (forall d :: d in t'.deliveries <==>
                    d in t.deliveries
                    && !(t.deliveries[d] in t.reminders && t.reminders[t.deliveries[d]].event == Some(id)))
              && forall d :: d in t'.deliveries ==> t'.deliveries[d] == t.deliveries[d]
            case AddReminder(newId, r) =>
              && (exists uid :: (r.user, uid) in t.contacts && t.contacts[(r.user, uid)] == r.contact)
              && t' == t.(reminders := t.reminders[newId := r])
            case EditReminder(r, edited) =>
              t' == t.(reminders := t.reminders[r := edited]) && edited.event == t.reminders[r].event
            case SoftDeleteReminder(r) => t' == t.(reminders := t.reminders[r := t.reminders[r].(deleted := true)])
            case Deliver(d, r) => t' == t.(deliveries := t.deliveries[d := r])
            case AddContact(user, uid, contact) => t' == t.(contacts := t.contacts[(user, uid) := contact])
            case DeleteContact(user, uid) =>
              var contact := t.contacts[(user, uid)];
              && t'.contacts == t.contacts - {(user, uid)} && t'.reminders.Keys == t.reminders.Keys
              && (forall r :: r in t.reminders ==>
                    t'.reminders[r] == if IsReminderOf(t, r, user, contact) then t.reminders[r].(deleted := true)
                                       else t.reminders[r])
              && (forall d :: d in t'.deliveries <==>
                    d in t.deliveries && !IsReminderOf(t, t.deliveries[d], user, contact))
              && forall d :: d in t'.deliveries ==> t'.deliveries[d] == t.deliveries[d]
            case SyncWedding(_, _, _, _, _) =>
              t'.reminders == t.reminders && t'.deliveries == t.deliveries && t'.contacts == t.contacts
  {
    hide Materialises, NextRemindAt;
    if step.AddReminder? {
      var r := step.reminder;
      var k :| k in t.contacts && k.0 == r.user && t.contacts[k] == r.contact;
      assert (r.user, k.1) == k;
    }
  }

  /** Each event owns at most one reminder row, soft-deleted ones counted. */
  ghost predicate OneEach(t: Tables) {
    forall r, s :: r in t.reminders && s in t.reminders && r != s
                   ==> t.reminders[r].event.None? || t.reminders[r].event != t.reminders[s].event
  }

  /** No delivery outlives its reminder. */
  ghost predicate Tidy(t: Tables) {
    forall d :: d in t.deliveries ==> t.deliveries[d] in t.reminders
  }

  /** A manual reminder names no event, or one without a reminder. */
  predicate Guarded(t: Tables, step: Step) {
    step.AddReminder? && step.reminder.event.Some? ==> RemindersOf(t.reminders, step.reminder.event.value) == {}
  }

  lemma UnremindedClears(t: Tables, id: EventId)
    ensures RemindersOf(Unreminded(t, id).reminders, id) == {} && Unreminded(t, id).events == t.events
    ensures OneEach(t) ==> OneEach(Unreminded(t, id))
    ensures Tidy(t) ==> Tidy(Unreminded(t, id))
  {
  }

  /** Whatever rows name an event, its own sync leaves it one or none. */
  lemma SyncLeavesOne(t: Tables, id: EventId, e: Event, newId: nat, now: Instant, offset: int)
    requires newId !in t.reminders
    ensures var t' := Synced(t, id, e, newId, now, offset);
            && RemindersOf(t'.reminders, id) == (if Materialises(t, e) then {newId} else {})
            && (OneEach(t) ==> OneEach(t')) && (Tidy(t) ==> Tidy(t'))
  {
    hide NextRemindAt, EventHasMonthDay;
    var cleared := Unreminded(t, id);
    UnremindedClears(t, id);
    assert forall r :: r in cleared.reminders ==> cleared.reminders[r].event != Some(id) by {
      assert forall r :: r in cleared.reminders ==> r !in RemindersOf(cleared.reminders, id);
    }
  }

  lemma AddedReminder(t: Tables, newId: nat, r: Reminder)
    requires OneEach(t) && newId !in t.reminders
    ensures OneEach(t.(reminders := t.reminders[newId := r]))
            <==> r.event.None? || RemindersOf(t.reminders, r.event.value) == {}
  {
    var t' := t.(reminders := t.reminders[newId := r]);
    if r.event.Some? {
      if s :| s in RemindersOf(t.reminders, r.event.value) {
        assert s in t'.reminders && s != newId && t'.reminders[s].event == t'.reminders[newId].event;
      } else {
        assert forall s :: s in t.reminders ==> s !in RemindersOf(t.reminders, r.event.value);
      }
    }
  }

  lemma SameEventsKeepOneEach(t: Tables, t': Tables)
    requires OneEach(t) && t'.reminders.Keys <= t.reminders.Keys
    requires forall r :: r in t'.reminders ==> t'.reminders[r].event == t.reminders[r].event
    ensures OneEach(t')
  {
  }

  /** A step keeps one row for each event exactly when it is no manual reminder for an event that has one. */
  lemma StepKeepsOneEach(t: Tables, step: Step)
    requires OneEach(t) && Enabled(t, step)
    ensures OneEach(Next(t, step)) <==> Guarded(t, step)
  {
    hide Synced, Unreminded, OneEach, Materialises, OwnsContact;
    match step
    case CreateEvent(id, e, newId, now, offset) =>
      var written := t.(events := t.events[id := e.(revision := 1, deleted := false)]);
      SameEventsKeepOneEach(t, written);
      SyncLeavesOne(written, id, e, newId, now, offset);
    case UpdateEvent(id, e, newId, now, offset) =>
      var written := t.(events := t.events[id := e.(revision := e.revision + 1, deleted := false)]);
      SameEventsKeepOneEach(t, written);
      SyncLeavesOne(written, id, e, newId, now, offset);
    case DeleteEvent(id) =>
      UnremindedClears(t, id);
      SameEventsKeepOneEach(Unreminded(t, id), Next(t, step));
    case AddReminder(newId, r) => AddedReminder(t, newId, r);
    case EditReminder(r, edited) => SameEventsKeepOneEach(t, Next(t, step));
    case SoftDeleteReminder(r) => SameEventsKeepOneEach(t, Next(t, step));
    case Deliver(d, r) => SameEventsKeepOneEach(t, Next(t, step));
    case AddContact(user, uid, contact) => SameEventsKeepOneEach(t, Next(t, step));
    case DeleteContact(user, uid) => SameEventsKeepOneEach(t, Next(t, step));
    case SyncWedding(id, user, entity, date, bare) => SameEventsKeepOneEach(t, Next(t, step));
  }

  lemma StepKeepsTidy(t: Tables, step: Step)
    requires Tidy(t) && Enabled(t, step)
    ensures Tidy(Next(t, step))
  {
    hide Synced, Unreminded, Materialises, OneEach, OwnsContact;
    match step
    case CreateEvent(id, e, newId, now, offset) =>
      SyncLeavesOne(t.(events := t.events[id := e.(revision := 1, deleted := false)]), id, e, newId, now, offset);
    case UpdateEvent(id, e, newId, now, offset) =>
      var written := t.(events := t.events[id := e.(revision := e.revision + 1, deleted := false)]);
      SyncLeavesOne(written, id, e, newId, now, offset);
    case DeleteEvent(id) => UnremindedClears(t, id);
    case _ =>
  }

  ghost predicate Runnable(t: Tables, steps: seq<Step>)
    decreases |steps|
  {
    steps == [] || (Enabled(t, steps[0]) && Runnable(Next(t, steps[0]), steps[1..]))
  }

  ghost function Run(t: Tables, steps: seq<Step>): Tables
    requires Runnable(t, steps)
    decreases |steps|
  {
    if steps == [] then t else Run(Next(t, steps[0]), steps[1..])
  }

  /** Every manual reminder of the run is guarded when it is added. */
  ghost predicate AllGuarded(t: Tables, steps: seq<Step>)
    requires Runnable(t, steps)
    decreases |steps|
  {
    steps == [] || (Guarded(t, steps[0]) && AllGuarded(Next(t, steps[0]), steps[1..]))
  }

  /** Every state of the run, the first and the last included, has at most one row for each event. */
  ghost predicate AlwaysOneEach(t: Tables, steps: seq<Step>)
    requires Runnable(t, steps)
    decreases |steps|
  {
    OneEach(t) && (steps == [] || AlwaysOneEach(Next(t, steps[0]), steps[1..]))
  }

  /**
   * Over a run each event owns at most one reminder row at all times exactly when no manual reminder is
   * added for an event that has one at that moment.
   */
  lemma {:induction false} OneEachExactly(t: Tables, steps: seq<Step>)
    requires OneEach(t) && Runnable(t, steps)
    ensures AlwaysOneEach(t, steps) <==> AllGuarded(t, steps)
    decreases |steps|
  {
    hide OneEach, Guarded, Enabled, Next;
    if steps != [] {
      StepKeepsOneEach(t, steps[0]);
      if Guarded(t, steps[0]) {
        OneEachExactly(Next(t, steps[0]), steps[1..]);
      } else {
        NotAlways(Next(t, steps[0]), steps[1..]);
      }
    }
  }

  lemma NotAlways(t: Tables, steps: seq<Step>)
    requires !OneEach(t) && Runnable(t, steps)
    ensures !AlwaysOneEach(t, steps)
  {
  }

  /** Over every run no delivery row outlives its reminder. */
  lemma {:induction false} RunKeepsTidy(t: Tables, steps: seq<Step>)
    requires Tidy(t) && Runnable(t, steps)
    ensures Tidy(Run(t, steps))
    decreases |steps|
  {
    hide Tidy, Enabled, Next;
    if steps != [] {
      StepKeepsTidy(t, steps[0]);
      RunKeepsTidy(Next(t, steps[0]), steps[1..]);
    }
  }

  /** An event calls for a reminder when it asks for one, its day is one of a leap year, and its contact is there. */
  lemma MaterialisesExactly(t: Tables, e: Event)
    ensures Materialises(t, e)
            <==> && e.remind && (e.user, e.entity) in t.contacts
                 && e.date.Some? && e.date.value.month.Some? && e.date.value.day.Some?
                 && 1 <= e.date.value.month.value <= 12
                 && 1 <= e.date.value.day.value <= (if e.date.value.month.value == 2 then 29
                                                    else if e.date.value.month.value in {4, 6, 9, 11} then 30 else 31)
  {
    hide EventHasMonthDay;
    if e.date.Some? {
      EventHasMonthDayExact(e.date.value);
    } else {
      NoDate();
    }
  }

  lemma NoDate()
    ensures !EventHasMonthDay(None)
  {
  }

  /** A materialised reminder is live, yearly, for the event's contact, and fires within 366 days. */
  lemma ReminderForIsRight(t: Tables, id: EventId, e: Event, now: Instant, offset: int)
    requires Materialises(t, e)
    ensures var r := ReminderFor(t, id, e, now, offset);
            && !r.deleted && r.recurrence == "yearly" && r.user == e.user && r.event == Some(id)
            && r.contact == t.contacts[(e.user, e.entity)]
            && r.remindAt == NextRemindAt(e.date.value.month.value, e.date.value.day.value, now, offset)
            && now < r.remindAt <= now + 366 * 86_400_000_000_000
  {
    var month, day := e.date.value.month.value, e.date.value.day.value;
    EventHasMonthDayExact(e.date.value);
    hide NextRemindAt, EventHasMonthDay;
    var year :| Gregorian.ValidDate(year, month, day);
    Gregorian.ValidInLeapYear(year, month, day);
    NextRemindAtIsSoon(month, day, now, offset);
  }

  /**
   * After any run, and whatever reminders name the event, its own create or update leaves it with one
   * reminder exactly when Remind is set, the date has a valid month and day and the contact is there;
   * otherwise with none.
   */
  lemma OwnReminderAfterSync(t: Tables, steps: seq<Step>, step: Step)
    requires Runnable(t, steps) && Enabled(Run(t, steps), step)
    requires step.CreateEvent? || (step.UpdateEvent? && CanSave(Run(t, steps), step.id, step.event.revision))
    ensures var before, after := Run(t, steps), Next(Run(t, steps), step);
            && RemindersOf(after.reminders, step.id) == (if Materialises(before, step.event) then {step.newId} else {})
            && (Materialises(before, step.event) ==>
                  after.reminders[step.newId] == ReminderFor(before, step.id, step.event, step.now, step.offset))
  {
    hide NextRemindAt, EventHasMonthDay;
    var before, e, id := Run(t, steps), step.event, step.id;
    var revision := if step.CreateEvent? then 1 else e.revision + 1;
    var written := before.(events := before.events[id := e.(revision := revision, deleted := false)]);
    SyncLeavesOne(written, id, e, step.newId, step.now, step.offset);
  }

  /** A deleted event owns no reminder. */
  lemma DeleteRemovesReminder(t: Tables, id: EventId)
    requires Enabled(t, DeleteEvent(id))
    ensures RemindersOf(Next(t, DeleteEvent(id)).reminders, id) == {}
    ensures forall d :: d in Next(t, DeleteEvent(id)).deliveries ==> t.deliveries[d] !in RemindersOf(t.reminders, id)
  {
  }

  /**
   * An event's sync leaves exactly the rows that do not name the event, and hard-deletes every row that
   * does, whoever made it and whosever it is.
   */
  lemma SyncTakesNamedRows(t: Tables, id: EventId, e: Event, newId: nat, now: Instant, offset: int)
    requires newId !in t.reminders
    ensures var t' := Synced(t, id, e, newId, now, offset);
            && (forall r :: r in t.reminders ==> (r in t'.reminders <==> t.reminders[r].event != Some(id)))
            && (forall r :: r in t.reminders && r in t'.reminders ==> t'.reminders[r] == t.reminders[r])
            && (forall d :: d in t.deliveries && t.deliveries[d] in t.reminders ==>
                  (d in t'.deliveries <==> t.reminders[t.deliveries[d]].event != Some(id)))
            && t'.events == t.events && t'.contacts == t.contacts
  {
    hide NextRemindAt, EventHasMonthDay;
  }

  // Wedding dates

  /** The event has the reminder its date calls for now, or none when it calls for none. */
  ghost predicate AsItsDateAsks(t: Tables, id: EventId, now: Instant, offset: int)
    requires id in t.events
  {
    var e := t.events[id];
    (set r | r in RemindersOf(t.reminders, id) :: t.reminders[r].remindAt)
    == if Materialises(t, e) then {NextRemindAt(e.date.value.month.value, e.date.value.day.value, now, offset)} else {}
  }

  /** Both dates call for no reminder, or both for the same day of the year. */
  predicate SameDemand(t: Tables, e: Event, e': Event) {
    && (Materialises(t, e) <==> Materialises(t, e'))
    && (Materialises(t, e) ==>
          e.date.value.month == e'.date.value.month && e.date.value.day == e'.date.value.day)
  }

  /** Both dates call for the same reminder at this time. */
  predicate SameReminder(t: Tables, e: Event, e': Event, now: Instant, offset: int) {
    && (Materialises(t, e) <==> Materialises(t, e'))
    && (Materialises(t, e) ==>
          NextRemindAt(e.date.value.month.value, e.date.value.day.value, now, offset)
          == NextRemindAt(e'.date.value.month.value, e'.date.value.day.value, now, offset))
  }

  lemma SameReminderAlways(t: Tables, e: Event, e': Event)
    ensures (forall now, offset :: SameReminder(t, e, e', now, offset)) <==> SameDemand(t, e, e')
  {
    hide NextRemindAt;
    if Materialises(t, e) && Materialises(t, e') {
      DaysOf(e.date.value);
      DaysOf(e'.date.value);
      var m, d, m', d' := e.date.value.month.value, e.date.value.day.value, e'.date.value.month.value,
                          e'.date.value.day.value;
      DaysAreToldApart(m, d, m', d');
      if forall now, offset :: SameReminder(t, e, e', now, offset) {
        forall now, offset ensures NextRemindAt(m, d, now, offset) == NextRemindAt(m', d', now, offset) {
          assert SameReminder(t, e, e', now, offset);
        }
      }
    } else {
      assert SameReminder(t, e, e', 0, 0) <==> SameDemand(t, e, e');
    }
  }

  /** What the wedding date makes of an event that has just been synced. */
  ghost function WeddingAfterSync(t: Tables, id: EventId, newId: nat, now: Instant, offset: int,
      date: Option<PartialDate>, bare: bool): Tables
    requires id in t.events && !t.events[id].deleted
  {
    var e := t.events[id];
    Next(Synced(t, id, e, newId, now, offset), SyncWedding(id, e.user, e.entity, date, bare))
  }

  lemma AsksAfterSync(t: Tables, id: EventId, newId: nat, now: Instant, offset: int,
      date: Option<PartialDate>, bare: bool)
    requires id in t.events && !t.events[id].deleted && newId !in t.reminders
    ensures var e, t' := t.events[id], WeddingAfterSync(t, id, newId, now, offset, date, bare);
            && id in t'.events
            && t'.reminders == Synced(t, id, e, newId, now, offset).reminders
            && (AsItsDateAsks(t', id, now, offset) <==> SameReminder(t, e, e.(date := date), now, offset))
  {
    hide NextRemindAt, EventHasMonthDay;
    var e := t.events[id];
    var s, t' := Synced(t, id, e, newId, now, offset), WeddingAfterSync(t, id, newId, now, offset, date, bare);
    SyncLeavesOne(t, id, e, newId, now, offset);
    assert t'.reminders == s.reminders && t'.contacts == t.contacts && t'.events[id].date == date;
    assert Materialises(t', t'.events[id]) <==> Materialises(t, e.(date := date));
    var instants := set r | r in RemindersOf(t'.reminders, id) :: t'.reminders[r].remindAt;
    if Materialises(t, e) {
      assert RemindersOf(s.reminders, id) == {newId};
      assert instants == {ReminderFor(t, id, e, now, offset).remindAt};
    } else {
      assert RemindersOf(s.reminders, id) == {};
      assert instants == {};
    }
  }

  /**
   * A wedding date leaves the reminder its event has just been given as it was. That is still the one its
   * date asks for, whatever the time is, exactly when old and new date call for none or for the same day.
   */
  lemma WeddingKeepsReminderExactly(t: Tables, id: EventId, newId: nat, date: Option<PartialDate>, bare: bool)
    requires id in t.events && !t.events[id].deleted && newId !in t.reminders
    ensures forall now, offset ::
              WeddingAfterSync(t, id, newId, now, offset, date, bare).reminders
              == Synced(t, id, t.events[id], newId, now, offset).reminders
    ensures (forall now, offset :: id in WeddingAfterSync(t, id, newId, now, offset, date, bare).events)
    ensures (forall now, offset ::
               AsItsDateAsks(WeddingAfterSync(t, id, newId, now, offset, date, bare), id, now, offset))
            <==> SameDemand(t, t.events[id], t.events[id].(date := date))
  {
    hide AsItsDateAsks, SameReminder, SameDemand, WeddingAfterSync, Synced;
    forall now, offset
      ensures var t' := WeddingAfterSync(t, id, newId, now, offset, date, bare);
              && id in t'.events && t'.reminders == Synced(t, id, t.events[id], newId, now, offset).reminders
              && (AsItsDateAsks(t', id, now, offset)
                  <==> SameReminder(t, t.events[id], t.events[id].(date := date), now, offset))
    {
      AsksAfterSync(t, id, newId, now, offset, date, bare);
    }
    SameReminderAlways(t, t.events[id], t.events[id].(date := date));
  }

  lemma DaysOf(date: PartialDate)
    requires EventHasMonthDay(Some(date))
    ensures date.month.Some? && date.day.Some? && Gregorian.ValidDate(2000, date.month.value, date.day.value)
  {
    EventHasMonthDayExact(date);
    var year :| Gregorian.ValidDate(year, date.month.value, date.day.value);
    Gregorian.ValidInLeapYear(year, date.month.value, date.day.value);
  }

  // A run in which a manual reminder names another user's event

  const BIRTHDAY := Event(1, "uid", Some(PartialDate(None, Some(1), Some(1))), true, 0, false)

  /** User 1 has an event with its reminder; user 2 adds a reminder to a contact of their own, naming that event. */
  function NamingRun(mine: Reminder): seq<Step> {
    [AddContact(1, "uid", 10), AddContact(2, "other", 20),
     CreateEvent("e", BIRTHDAY, 100, 0, 0), AddReminder(200, mine)]
  }

  lemma BirthdayHasMonthDay()
    ensures EventHasMonthDay(BIRTHDAY.date)
  {
    EventHasMonthDayExact(BIRTHDAY.date.value);
    assert Gregorian.ValidDate(2000, 1, 1);
  }

  /** What the first three steps leave, with the reminder they make. */
  function WithBirthday(r: Reminder): Tables {
    Tables(map[(1, "uid") := 10, (2, "other") := 20], map["e" := BIRTHDAY.(revision := 1)], map[100 := r], map[])
  }

  lemma FourSteps(t: Tables, a: Step, b: Step, c: Step, d: Step)
    requires Enabled(t, a) && Enabled(Next(t, a), b) && Enabled(Next(Next(t, a), b), c)
    requires Enabled(Next(Next(Next(t, a), b), c), d)
    ensures Runnable(t, [a, b, c, d]) && Run(t, [a, b, c, d]) == Next(Next(Next(Next(t, a), b), c), d)
  {
    hide Next, Enabled;
    var t1 := Next(t, a);
    var t2 := Next(t1, b);
    var t3 := Next(t2, c);
    assert [a, b, c, d][1..] == [b, c, d] && [b, c, d][1..] == [c, d] && [c, d][1..] == [d] && [d][1..] == [];
    assert Runnable(Next(t3, d), []) && Runnable(t3, [d]) && Run(t3, [d]) == Run(Next(t3, d), []);
    assert Runnable(t2, [c, d]) && Run(t2, [c, d]) == Run(t3, [d]);
    assert Runnable(t1, [b, c, d]) && Run(t1, [b, c, d]) == Run(t2, [c, d]);
  }

  lemma BirthdayIsCreated() returns (r: Reminder)
    ensures r.event == Some("e")
    ensures var t := Tables(map[(1, "uid") := 10, (2, "other") := 20], map[], map[], map[]);
            && Enabled(t, CreateEvent("e", BIRTHDAY, 100, 0, 0))
            && Next(t, CreateEvent("e", BIRTHDAY, 100, 0, 0)) == WithBirthday(r)
  {
    BirthdayHasMonthDay();
    hide NextRemindAt, EventHasMonthDay;
    var t := Tables(map[(1, "uid") := 10, (2, "other") := 20], map[], map[], map[]);
    r := ReminderFor(t, "e", BIRTHDAY, 0, 0);
    assert RemindersOf(map[], "e") == {};
    assert BIRTHDAY.(revision := 1, deleted := false) == BIRTHDAY.(revision := 1);
  }

  lemma ContactsAreAdded()
    ensures var none := Tables(map[], map[], map[], map[]);
            var t1 := Next(none, AddContact(1, "uid", 10));
            && Enabled(none, AddContact(1, "uid", 10)) && Enabled(t1, AddContact(2, "other", 20))
            && Next(t1, AddContact(2, "other", 20))
               == Tables(map[(1, "uid") := 10, (2, "other") := 20], map[], map[], map[])
  {
  }

  lemma NamingRunEnds(mine: Reminder)
    requires mine.user == 2 && mine.contact == 20 && mine.event == Some("e")
    ensures var none := Tables(map[], map[], map[], map[]);
            && Runnable(none, NamingRun(mine))
            && var t := Run(none, NamingRun(mine));
               && t.reminders.Keys == {100, 200} && t.reminders[100].event == t.reminders[200].event == Some("e")
               && t.events == map["e" := BIRTHDAY.(revision := 1)] && (1, "uid") in t.contacts
  {
    hide ReminderFor, Synced, Materialises;
    var r := BirthdayIsCreated();
    ContactsAreAdded();
    var none := Tables(map[], map[], map[], map[]);
    var t2 := Tables(map[(1, "uid") := 10, (2, "other") := 20], map[], map[], map[]);
    var t3 := WithBirthday(r);
    assert t3.contacts[(2, "other")] == 20;
    assert Enabled(t3, AddReminder(200, mine));
    hide Next, Enabled;
    FourSteps(none, AddContact(1, "uid", 10), AddContact(2, "other", 20), CreateEvent("e", BIRTHDAY, 100, 0, 0),
              AddReminder(200, mine));
    AddedIs(t3, 200, mine);
  }

  lemma AddedIs(t: Tables, newId: nat, r: Reminder)
    requires Enabled(t, AddReminder(newId, r))
    ensures Next(t, AddReminder(newId, r)) == t.(reminders := t.reminders[newId := r])
  {
  }

  /** The event then owns two rows, and its next update deletes user 2's reminder. */
  lemma ManualReminderBreaksIn(mine: Reminder, now: Instant)
    requires mine.user == 2 && mine.contact == 20 && mine.event == Some("e")
    ensures var none := Tables(map[], map[], map[], map[]);
            && Runnable(none, NamingRun(mine))
            && var t := Run(none, NamingRun(mine));
               && RemindersOf(t.reminders, "e") == {100, 200} && !OneEach(t)
               && var update := UpdateEvent("e", BIRTHDAY.(revision := 1), 300, now, 0);
                  && Enabled(t, update) && 200 !in Next(t, update).reminders
                  && RemindersOf(Next(t, update).reminders, "e") == {300}
  {
    hide Next, Enabled, OneEach, RemindersOf, NamingRun, Run, Runnable;
    NamingRunEnds(mine);
    var t := Run(Tables(map[], map[], map[], map[]), NamingRun(mine));
    NamedByTwo(t);
    NextUpdateTakesBoth(t, now);
  }

  lemma NamedByTwo(t: Tables)
    requires t.reminders.Keys == {100, 200} && t.reminders[100].event == t.reminders[200].event == Some("e")
    ensures RemindersOf(t.reminders, "e") == {100, 200} && !OneEach(t)
  {
  }

  lemma NextUpdateTakesBoth(t: Tables, now: Instant)
    requires t.reminders.Keys == {100, 200} && t.reminders[100].event == t.reminders[200].event == Some("e")
    requires t.events == map["e" := BIRTHDAY.(revision := 1)] && (1, "uid") in t.contacts
    ensures var update := UpdateEvent("e", BIRTHDAY.(revision := 1), 300, now, 0);
            && Enabled(t, update) && 200 !in Next(t, update).reminders
            && RemindersOf(Next(t, update).reminders, "e") == {300}
  {
    BirthdayHasMonthDay();
    hide NextRemindAt, EventHasMonthDay;
    var e := BIRTHDAY.(revision := 1);
    var written := t.(events := t.events["e" := e.(revision := 2, deleted := false)]);
    SyncLeavesOne(written, "e", e, 300, now, 0);
    SyncTakesNamedRows(written, "e", e, 300, now, 0);
  }

  // The transactions over the stored tables

  class LifeEventStore {
    var contacts: map<(nat, string), nat>
    var events: map<EventId, Event>
    var reminders: map<nat, Reminder>
    var deliveries: map<nat, nat>

    ghost function State(): Tables
      reads this
    {
      Tables(contacts, events, reminders, deliveries)
    }

    /** Replace an event's reminder, inside the caller's transaction. */
    method SyncReminder(id: EventId, e: Event, newId: nat, now: Instant, offset: int)
      requires newId !in reminders
      modifies this`reminders, this`deliveries
      ensures State() == Synced(old(State()), id, e, newId, now, offset)
    {
      hide NextRemindAt, Gregorian.Civil, Gregorian.DayNumber;
      var gone := set r | r in reminders && reminders[r].event == Some(id);
      deliveries := map d | d in deliveries && deliveries[d] !in gone :: deliveries[d];
      reminders := map r | r in reminders && r !in gone :: reminders[r];
      assert State() == Unreminded(old(State()), id);
      if !e.remind || !EventHasMonthDay(e.date) {
        return;
      }
      if (e.user, e.entity) !in contacts {
        return;
      }
      assert Materialises(old(State()), e);
      var contact := contacts[(e.user, e.entity)];
      var remindAt := NextRemindAt(e.date.value.month.value, e.date.value.day.value, now, offset);
      reminders := reminders[newId := Reminder(e.user, contact, Some(id), remindAt, "yearly", false)];
    }

    method Create(id: EventId, e: Event, newId: nat, now: Instant, offset: int)
      requires Enabled(State(), CreateEvent(id, e, newId, now, offset))
      modifies this
      ensures State() == Next(old(State()), CreateEvent(id, e, newId, now, offset))
    {
      events := events[id := e.(revision := 1, deleted := false)];
      SyncReminder(id, e, newId, now, offset);
    }

    /** False reports the revision conflict, with nothing changed. */
    method Update(id: EventId, e: Event, newId: nat, now: Instant, offset: int) returns (saved: bool)
      requires Enabled(State(), UpdateEvent(id, e, newId, now, offset))
      modifies this
      ensures saved <==> CanSave(old(State()), id, e.revision)
      ensures State() == Next(old(State()), UpdateEvent(id, e, newId, now, offset))
    {
      if events[id].deleted || events[id].revision != e.revision {
        return false;
      }
      events := events[id := e.(revision := e.revision + 1, deleted := false)];
      SyncReminder(id, e, newId, now, offset);
      return true;
    }

    /** `CreateReminder`: the contact is the caller's; the life event id of the request is stored as it came. */
    method AddReminder(newId: nat, r: Reminder) returns (ok: bool)
      requires newId !in reminders
      modifies this`reminders
      ensures ok <==> Enabled(old(State()), Step.AddReminder(newId, r))
      ensures State() == if ok then Next(old(State()), Step.AddReminder(newId, r)) else old(State())
    {
      if !OwnsContact(contacts, r.user, r.contact) {
        return false;
      }
      reminders := reminders[newId := r];
      return true;
    }

    /** `SyncWeddingFromCard`, which leaves the reminders alone. */
    method SyncWeddingDate(id: EventId, user: nat, entity: string, date: Option<PartialDate>, bare: bool)
      requires Enabled(State(), SyncWedding(id, user, entity, date, bare))
      modifies this`events
      ensures State() == Next(old(State()), SyncWedding(id, user, entity, date, bare))
    {
      if id !in events {
        events := events[id := Event(user, entity, date, false, 1, false)];
        return;
      }
      var event := events[id];
      if event.date == date {
        return;
      }
      event := event.(date := date);
      if date.None? && bare && !event.remind {
        event := event.(deleted := true);
      } else {
        event := event.(revision := event.revision + 1);
      }
      events := events[id := event];
    }

    method Delete(id: EventId)
      requires Enabled(State(), DeleteEvent(id))
      modifies this
      ensures State() == Next(old(State()), DeleteEvent(id))
    {
      var gone := set r | r in reminders && reminders[r].event == Some(id);
      deliveries := map d | d in deliveries && deliveries[d] !in gone :: deliveries[d];
      reminders := map r | r in reminders && r !in gone :: reminders[r];
      assert State() == Unreminded(old(State()), id);
      events := events[id := events[id].(deleted := true)];
    }
  }
}

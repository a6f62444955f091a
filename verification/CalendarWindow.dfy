/** Filtering served calendar events by a query window, and the yearly events among them. */
module CalendarWindow {
  import opened Wrappers
  import opened Text
  import opened Gregorian

  /** An instant in UTC, in nanoseconds since 1 January of year 1. */
  type Instant = int

  const YEARS_SCANNED: int := 50

  function DayOf(t: Instant): int {
    t / 86_400_000_000_000
  }

  function Midnight(day: int): Instant {
    day * 86_400_000_000_000
  }

  function InstantYear(t: Instant): int {
    YearOf(DayOf(t))
  }

  predicate Within(t: Instant, start: Instant, end: Instant) {
    start <= t <= end
  }

  /** The midnight of a month and day in some year, 29 February carried over in common years. */
  function Candidate(year: int, month: int, day: int): Instant {
    Midnight(DayNumber(year, month, day))
  }

  predicate IsYearly(rrule: Option<string>) {
    rrule.Some? && Contains(Upper(rrule.value), "FREQ=YEARLY")
  }

  lemma UpperOfPart(head: string, part: string, tail: string)
    ensures Upper(head + part + tail) == Upper(head) + Upper(part) + Upper(tail)
  {
  }

  /** A rule is yearly when some part of it is "FREQ=YEARLY", in upper or lower case. */
  lemma IsYearlyExactly(rule: string)
    ensures !IsYearly(None)
    ensures IsYearly(Some(rule))
            <==> exists head, part, tail :: rule == head + part + tail && Upper(part) == "FREQ=YEARLY"
  {
    hide Upper, Contains;
    if head, part, tail :| rule == head + part + tail && Upper(part) == "FREQ=YEARLY" {
      UpperOfPart(head, part, tail);
      ContainsPart(Upper(head), "FREQ=YEARLY", Upper(tail));
    }
    if IsYearly(Some(rule)) {
      var head, tail := PartOf(Upper(rule), "FREQ=YEARLY");
      var i, j := |head|, |head| + 11;
      assert rule == rule[..i] + rule[i..j] + rule[j..];
      UpperOfPart(rule[..i], rule[i..j], rule[j..]);
      assert Upper(rule)[i..j] == "FREQ=YEARLY";
    }
  }

  ghost predicate SomeYearWithin(month: int, day: int, start: Instant, end: Instant) {
    exists year :: Within(Candidate(year, month, day), start, end)
  }

  lemma DayOfMidnight(day: int)
    ensures DayOf(Midnight(day)) == day
  {
  }

  lemma CandidateYear(year: int, month: int, day: int)
    requires ValidDate(2000, month, day)
    ensures InstantYear(Candidate(year, month, day)) == year
  {
    DayOfMidnight(DayNumber(year, month, day));
    DayNumberYear(year, month, day);
  }

  lemma InstantYearMonotone(a: Instant, b: Instant)
    requires a <= b
    ensures InstantYear(a) <= InstantYear(b)
  {
    if InstantYear(b) < InstantYear(a) {
      YearStartMonotone(InstantYear(b) + 1, InstantYear(a));
    }
  }

  lemma CandidateMonotone(a: int, b: int, month: int, day: int)
    requires a < b && ValidDate(2000, month, day)
    ensures Candidate(a, month, day) < Candidate(b, month, day)
  {
    DayNumberMonotone(a, b, month, day);
  }

  /** A candidate in a later year than the window's start lies after that start. */
  lemma LaterYearIsLater(year: int, month: int, day: int, start: Instant)
    requires ValidDate(2000, month, day) && InstantYear(start) < year
    ensures start < Candidate(year, month, day)
  {
    CandidateYear(year, month, day);
    if Candidate(year, month, day) <= start {
      InstantYearMonotone(Candidate(year, month, day), start);
    }
  }

  /** The scan of at most 50 years past the window's first loses no match. */
  lemma ScanLosesNothing(month: int, day: int, start: Instant, end: Instant, year: int)
    requires ValidDate(2000, month, day)
    requires forall y :: InstantYear(start) <= y < year ==> !Within(Candidate(y, month, day), start, end)
    requires year > InstantYear(end) || year > InstantYear(start) + YEARS_SCANNED
    ensures !SomeYearWithin(month, day, start, end)
  {
    forall y ensures !Within(Candidate(y, month, day), start, end) {
      CandidateYear(y, month, day);
      if Within(Candidate(y, month, day), start, end) {
        InstantYearMonotone(start, Candidate(y, month, day));
        InstantYearMonotone(Candidate(y, month, day), end);
        var second := InstantYear(start) + 1;
        if y >= year {
          LaterYearIsLater(second, month, day, start);
          if y > second {
            CandidateMonotone(second, y, month, day);
          }
        }
      }
    }
  }

  /** Look for the month and day in the years of the window, at most 50 past its first. */
  method ScanYears(month: int, day: int, start: Instant, end: Instant) returns (r: bool)
    requires ValidDate(2000, month, day)
    ensures r <==> SomeYearWithin(month, day, start, end)
  {
    hide Candidate, YearOf, InstantYear;
    var first, last := InstantYear(start), InstantYear(end);
    var year := first;
    while year <= last && year <= first + YEARS_SCANNED
      invariant year >= first
      invariant forall y :: first <= y < year ==> !Within(Candidate(y, month, day), start, end)
      decreases last - year
    {
      var candidate := Candidate(year, month, day);
      if Within(candidate, start, end) {
        return true;
      }
      year := year + 1;
    }
    ScanLosesNothing(month, day, start, end, year);
    return false;
  }

  /** True exactly when DTSTART, or for a yearly event its month and day in any year at all, lies in the window. */
  method EventInWindow(rrule: Option<string>, dtstart: Instant, start: Instant, end: Instant) returns (r: bool)
    ensures r <==> Within(dtstart, start, end)
                   || (IsYearly(rrule)
                       && SomeYearWithin(Civil(DayOf(dtstart)).month, Civil(DayOf(dtstart)).day, start, end))
    ensures IsYearly(rrule) && dtstart == Anchor(Civil(DayOf(dtstart)))
            ==> (r <==> Selected(Civil(DayOf(dtstart)), start, end))
  {
    if Within(dtstart, start, end) {
      return true;
    }
    if !IsYearly(rrule) {
      return false;
    }
    var date := Civil(DayOf(dtstart));
    ValidInLeapYear(date.year, date.month, date.day);
    r := ScanYears(date.month, date.day, start, end);
  }

  /** The recurrence set of FREQ=YEARLY from DTSTART: section 3.3.10 of RFC 5545 skips dates that do not exist. */
  ghost predicate Occurrence(dtstart: Date, t: Instant) {
    exists year :: year >= dtstart.year && ValidDate(year, dtstart.month, dtstart.day)
                   && t == Candidate(year, dtstart.month, dtstart.day)
  }

  ghost predicate OccursWithin(dtstart: Date, start: Instant, end: Instant) {
    exists t :: Occurrence(dtstart, t) && Within(t, start, end)
  }

  function Anchor(dtstart: Date): Instant {
    Candidate(dtstart.year, dtstart.month, dtstart.day)
  }

  ghost predicate Selected(dtstart: Date, start: Instant, end: Instant) {
    Within(Anchor(dtstart), start, end) || SomeYearWithin(dtstart.month, dtstart.day, start, end)
  }

  /** Away from 29 February, and with a window reaching DTSTART, the test is the recurrence set. */
  lemma SelectedIsRecurrence(dtstart: Date, start: Instant, end: Instant)
    requires ValidDate(dtstart.year, dtstart.month, dtstart.day)
    requires (dtstart.month, dtstart.day) != (2, 29) && end >= Anchor(dtstart)
    ensures Selected(dtstart, start, end) <==> OccursWithin(dtstart, start, end)
  {
    hide DayNumber;
    ValidInLeapYear(dtstart.year, dtstart.month, dtstart.day);
    assert Occurrence(dtstart, Anchor(dtstart));
    if SomeYearWithin(dtstart.month, dtstart.day, start, end) {
      var year :| Within(Candidate(year, dtstart.month, dtstart.day), start, end);
      if year < dtstart.year {
        CandidateMonotone(year, dtstart.year, dtstart.month, dtstart.day);
        assert Within(Anchor(dtstart), start, end);
      } else {
        assert ValidDate(year, dtstart.month, dtstart.day);
        assert Occurrence(dtstart, Candidate(year, dtstart.month, dtstart.day));
      }
    }
  }

  /** A window that ends before DTSTART has no occurrence, and selects exactly on an earlier anniversary. */
  lemma WindowBeforeStart(dtstart: Date, start: Instant, end: Instant)
    requires ValidDate(dtstart.year, dtstart.month, dtstart.day) && end < Anchor(dtstart)
    ensures !OccursWithin(dtstart, start, end)
    ensures Selected(dtstart, start, end)
            <==> exists year :: year < dtstart.year && Within(Candidate(year, dtstart.month, dtstart.day), start, end)
  {
    hide DayNumber;
    ValidInLeapYear(dtstart.year, dtstart.month, dtstart.day);
    forall year | year >= dtstart.year ensures Candidate(year, dtstart.month, dtstart.day) >= Anchor(dtstart) {
      if year > dtstart.year {
        CandidateMonotone(dtstart.year, year, dtstart.month, dtstart.day);
      }
    }
  }

  ghost predicate MarchFirstWithin(start: Instant, end: Instant) {
    exists year :: !IsLeap(year) && Within(Candidate(year, 3, 1), start, end)
  }

  lemma LeapDayCandidate(year: int)
    ensures !IsLeap(year) ==> Candidate(year, 2, 29) == Candidate(year, 3, 1)
  {
    LeapDayCarries(year);
  }

  lemma LeapAnchorAdds(dtstart: Date, start: Instant, end: Instant, year: int)
    requires dtstart.month == 2 && dtstart.day == 29 && ValidDate(dtstart.year, 2, 29) && end >= Anchor(dtstart)
    requires Within(Candidate(year, 2, 29), start, end)
    ensures OccursWithin(dtstart, start, end) || MarchFirstWithin(start, end)
  {
    hide DayNumber;
    if !IsLeap(year) {
      LeapDayCandidate(year);
    } else if year < dtstart.year {
      CandidateMonotone(year, dtstart.year, 2, 29);
      assert Occurrence(dtstart, Anchor(dtstart)) && Within(Anchor(dtstart), start, end);
    } else {
      assert ValidDate(year, 2, 29);
      assert Occurrence(dtstart, Candidate(year, 2, 29));
    }
  }

  /** For a 29 February anchor the test adds to the recurrence exactly 1 March of common years. */
  lemma LeapAnchorSelection(dtstart: Date, start: Instant, end: Instant)
    requires dtstart.month == 2 && dtstart.day == 29 && ValidDate(dtstart.year, 2, 29) && end >= Anchor(dtstart)
    ensures Selected(dtstart, start, end) <==> OccursWithin(dtstart, start, end) || MarchFirstWithin(start, end)
  {
    hide DayNumber;
    assert Anchor(dtstart) == Candidate(dtstart.year, 2, 29);
    if Selected(dtstart, start, end) {
      var year :| Within(Candidate(year, 2, 29), start, end);
      LeapAnchorAdds(dtstart, start, end, year);
    }
    if OccursWithin(dtstart, start, end) {
      var t :| Occurrence(dtstart, t) && Within(t, start, end);
      var year :| t == Candidate(year, dtstart.month, dtstart.day);
    } else if MarchFirstWithin(start, end) {
      var year :| !IsLeap(year) && Within(Candidate(year, 3, 1), start, end);
      LeapDayCandidate(year);
      assert Within(Candidate(year, 2, 29), start, end);
    }
  }

  /** A 29 February 2020 event is found in a window that holds nothing but 1 March 2023. */
  lemma LeapAnchorInCommonYear()
    ensures var anchor, day := Date(2020, 2, 29), Candidate(2023, 3, 1);
            Selected(anchor, day, day) && !OccursWithin(anchor, day, day)
  {
    var anchor, day := Date(2020, 2, 29), Candidate(2023, 3, 1);
    LeapDayCandidate(2023);
    assert ValidDate(2020, 2, 29);
    hide DayNumber;
    CandidateMonotone(2020, 2023, 2, 29);
    assert MarchFirstWithin(day, day) by { assert Within(Candidate(2023, 3, 1), day, day); }
    LeapAnchorSelection(anchor, day, day);
    forall t | Occurrence(anchor, t) ensures t != day {
      var year :| t == Candidate(year, 2, 29) && ValidDate(year, 2, 29);
      if year < 2023 {
        CandidateMonotone(year, 2023, 2, 29);
      } else if year > 2023 {
        CandidateMonotone(2023, year, 2, 29);
      }
    }
  }

  /**
   * The DTSTART a life event is served with: its own year, or the current one. Reading the date
   * back gives the stored month and day exactly when that date exists in that year.
   */
  lemma LifeEventAnchorKeepsDate(year: Option<int>, currentYear: int, month: int, day: int)
    ensures var anchorYear := if year.Some? then year.value else currentYear;
            Civil(DayOf(Candidate(anchorYear, month, day))) == Date(anchorYear, month, day)
            <==> ValidDate(anchorYear, month, day)
  {
    var anchorYear := if year.Some? then year.value else currentYear;
    DayOfMidnight(DayNumber(anchorYear, month, day));
    CivilOfDayNumber(anchorYear, month, day);
  }

  // Filtering a query's objects

  datatype Event = Event(dtstart: Option<Instant>, rrule: Option<string>)
  datatype Object = Object(path: string, events: Option<seq<Event>>)
  datatype CompFilter = CompFilter(name: string, start: Option<Instant>, end: Option<Instant>)

  ghost predicate EventKept(e: Event, start: Option<Instant>, end: Option<Instant>) {
    || e.dtstart.None? || start.None? || end.None?
    || Within(e.dtstart.value, start.value, end.value)
    || (IsYearly(e.rrule)
        && SomeYearWithin(Civil(DayOf(e.dtstart.value)).month, Civil(DayOf(e.dtstart.value)).day,
                          start.value, end.value))
  }

  ghost predicate ObjectKept(o: Object, start: Option<Instant>, end: Option<Instant>) {
    o.events.Some? && exists e :: e in o.events.value && EventKept(e, start, end)
  }

  ghost function KeptObjects(objects: seq<Object>, start: Option<Instant>, end: Option<Instant>): seq<Object> {
    if objects == [] then []
    else
      var last := objects[|objects| - 1];
      KeptObjects(objects[..|objects| - 1], start, end) + if ObjectKept(last, start, end) then [last] else []
  }

  /**
   * Kept are the objects that hold an event without DTSTART, or whose DTSTART lies in the window, or a yearly
   * one with its month and day in the window in any year; without both ends of a window every event counts.
   */
  lemma {:induction false} KeptExactly(objects: seq<Object>, start: Option<Instant>, end: Option<Instant>, o: Object)
    ensures o in KeptObjects(objects, start, end)
            <==> && o in objects && o.events.Some?
                 && exists e :: e in o.events.value
                      && (|| e.dtstart.None? || start.None? || end.None?
                          || start.value <= e.dtstart.value <= end.value
                          || (IsYearly(e.rrule) && exists year ::
                                var date := Civil(DayOf(e.dtstart.value));
                                start.value <= Candidate(year, date.month, date.day) <= end.value))
  {
    hide Civil, Candidate, IsYearly;
    if objects != [] {
      var n := |objects| - 1;
      KeptExactly(objects[..n], start, end, o);
      assert objects == objects[..n] + [objects[n]];
    }
  }

  /** And they are kept in order. */
  lemma {:induction false} KeptInOrder(a: seq<Object>, b: seq<Object>, start: Option<Instant>, end: Option<Instant>)
    ensures KeptObjects(a + b, start, end) == KeptObjects(a, start, end) + KeptObjects(b, start, end)
  {
    hide ObjectKept;
    if b == [] {
      assert a + b == a;
    } else {
      var n := |b| - 1;
      KeptInOrder(a, b[..n], start, end);
      assert (a + b)[..|a| + n] == a + b[..n];
    }
  }

  /** The first VEVENT filter of a query, if any. */
  function EventFilter(comps: seq<CompFilter>): Option<CompFilter> {
    if comps == [] then None
    else if comps[0].name == "VEVENT" then Some(comps[0])
    else EventFilter(comps[1..])
  }

  method FindEventFilter(comps: seq<CompFilter>) returns (found: Option<CompFilter>)
    ensures found == EventFilter(comps)
    ensures found.Some? <==> exists i :: 0 <= i < |comps| && comps[i].name == "VEVENT"
    ensures found.Some? ==> exists i :: 0 <= i < |comps| && comps[i] == found.value && comps[i].name == "VEVENT"
                                        && forall j :: 0 <= j < i ==> comps[j].name != "VEVENT"
  {
    var i := 0;
    while i < |comps|
      invariant i <= |comps|
      invariant EventFilter(comps) == EventFilter(comps[i..])
      invariant forall j :: 0 <= j < i ==> comps[j].name != "VEVENT"
    {
      if comps[i].name == "VEVENT" {
        return Some(comps[i]);
      }
      assert comps[i..][1..] == comps[i + 1..];
      i := i + 1;
    }
    return None;
  }

  /** Keeps, in order, the objects with an event in the window of the query's first VEVENT filter. */
  method FilterObjectsByWindow(objects: seq<Object>, query: Option<seq<CompFilter>>) returns (out: seq<Object>)
    ensures query.None? || EventFilter(query.value).None? ==> out == objects
    ensures query.Some? && EventFilter(query.value).Some? ==>
              out == KeptObjects(objects, EventFilter(query.value).value.start, EventFilter(query.value).value.end)
  {
    if query.None? {
      return objects;
    }
    var filter := FindEventFilter(query.value);
    if filter.None? {
      return objects;
    }
    var start, end := filter.value.start, filter.value.end;
    out := [];
    for i := 0 to |objects|
      invariant out == KeptObjects(objects[..i], start, end)
    {
      assert objects[..i + 1][..i] == objects[..i];
      if objects[i].events.None? {
        continue;
      }
      var events := objects[i].events.value;
      var keep := false;
      for j := 0 to |events|
        invariant keep <==> exists k :: 0 <= k < j && EventKept(events[k], start, end)
      {
        if events[j].dtstart.None? || start.None? || end.None? {
          keep := true;
          continue;
        }
        var hit := EventInWindow(events[j].rrule, events[j].dtstart.value, start.value, end.value);
        if hit {
          keep := true;
        }
      }
      assert keep <==> ObjectKept(objects[i], start, end);
      if keep {
        out := out + [objects[i]];
      }
    }
    assert objects[..|objects|] == objects;
  }
}

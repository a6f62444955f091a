/** When a yearly life-event reminder fires next, in a zone with a fixed offset from UTC. */
module NextReminder {
  import opened Wrappers
  import opened Gregorian

  type Instant = int

  const NINE_O_CLOCK: int := 32_400_000_000_000

  datatype PartialDate = PartialDate(year: Option<int>, month: Option<int>, day: Option<int>)

  function AtNine(n: int): Instant {
    n * 86_400_000_000_000 + NINE_O_CLOCK
  }

  /** 09:00 local time on the day the month and day fall on in a year. */
  function Nine(year: int, month: int, day: int): Instant {
    AtNine(DayNumber(year, month, day))
  }

  function LocalDay(local: Instant): int {
    local / 86_400_000_000_000
  }

  function LocalYear(local: Instant): int {
    YearOf(LocalDay(local))
  }

  /** The year test of a month and day: year 2000 is a leap year, and a day that carries over changes month. */
  predicate EventHasMonthDay(date: Option<PartialDate>) {
    && date.Some? && date.value.month.Some? && date.value.day.Some?
    && 1 <= date.value.month.value <= 12 && 1 <= date.value.day.value <= 31
    && Civil(DayNumber(2000, date.value.month.value, date.value.day.value)).month == date.value.month.value
  }

  /** `AddDate(1, 0, 0)`, which keeps the time of day. */
  function YearLater(n: int): int {
    var date := Civil(n);
    DayNumber(date.year + 1, date.month, date.day)
  }

  function NextRemindAt(month: int, day: int, now: Instant, offset: int): Instant {
    var local := now + offset;
    var n := DayNumber(LocalYear(local), month, day);
    (if AtNine(n) > local then AtNine(n) else AtNine(YearLater(n))) - offset
  }

  lemma LocalDayOfNine(year: int, month: int, day: int)
    ensures LocalDay(Nine(year, month, day)) == DayNumber(year, month, day)
  {
  }

  /** Accepted are exactly the days of a leap year: months of 31 and 30 days, and a February of 29. */
  lemma EventHasMonthDayExact(date: PartialDate)
    ensures EventHasMonthDay(Some(date))
            <==> && date.month.Some? && date.day.Some? && 1 <= date.month.value <= 12
                 && 1 <= date.day.value <= (if date.month.value == 2 then 29
                                            else if date.month.value in {4, 6, 9, 11} then 30 else 31)
    ensures EventHasMonthDay(Some(date))
            <==> date.month.Some? && date.day.Some? && exists year :: ValidDate(year, date.month.value, date.day.value)
  {
    hide DayNumber, YearOf, YearStart, DaysBefore;
    if date.month.Some? && date.day.Some? && 1 <= date.month.value <= 12 {
      var m, d := date.month.value, date.day.value;
      DaysInMonthExact(2000, m);
      assert ValidDate(2000, m, d) <==> 1 <= d <= MonthLength(2000, m);
      if EventHasMonthDay(Some(date)) {
        SameMonthIsValid(2000, m, d);
      } else if exists year :: ValidDate(year, m, d) {
        var year :| ValidDate(year, m, d);
        ValidInLeapYear(year, m, d);
        CivilOfDayNumber(2000, m, d);
        assert false;
      }
    }
  }

  /** A day of at most 31 that stays in its month exists. */
  lemma SameMonthIsValid(year: int, month: int, day: int)
    requires 1 <= month <= 12 && 1 <= day <= 31
    requires Civil(DayNumber(year, month, day)).month == month
    ensures ValidDate(year, month, day)
  {
    hide YearStart, YearOf, DayNumber, DaysBefore;
    DayNumberStaysInYear(year, month, day);
    DayNumberPlain(year, month, day);
    var date := Civil(DayNumber(year, month, day));
    DayNumberPlain(date.year, date.month, date.day);
  }

  lemma NineYear(year: int, month: int, day: int)
    requires ValidDate(2000, month, day)
    ensures LocalYear(Nine(year, month, day)) == year
  {
    LocalDayOfNine(year, month, day);
    DayNumberYear(year, month, day);
  }

  lemma NineMonotone(a: int, b: int, month: int, day: int)
    requires a < b && ValidDate(2000, month, day)
    ensures Nine(a, month, day) < Nine(b, month, day)
  {
    DayNumberMonotone(a, b, month, day);
  }

  lemma LocalYearMonotone(a: Instant, b: Instant)
    requires a <= b
    ensures LocalYear(a) <= LocalYear(b)
  {
    if LocalYear(b) < LocalYear(a) {
      YearStartMonotone(LocalYear(b) + 1, LocalYear(a));
    }
  }

  /** Outside the current year an occurrence lies on the same side of now as its year. */
  lemma NineBesideNow(year: int, month: int, day: int, local: Instant)
    requires ValidDate(2000, month, day)
    ensures year < LocalYear(local) ==> Nine(year, month, day) < local
    ensures year > LocalYear(local) ==> Nine(year, month, day) > local
  {
    NineYear(year, month, day);
    if Nine(year, month, day) <= local {
      LocalYearMonotone(Nine(year, month, day), local);
    }
    if Nine(year, month, day) >= local {
      LocalYearMonotone(local, Nine(year, month, day));
    }
  }

  /** From one year's occurrence to the next are at most 366 days. */
  lemma NineStep(year: int, month: int, day: int)
    requires ValidDate(2000, month, day)
    ensures Nine(year + 1, month, day) <= Nine(year, month, day) + 366 * 86_400_000_000_000
  {
    DayNumberPlain(year, month, day);
    DayNumberPlain(year + 1, month, day);
    YearStartNext(year);
  }

  lemma LastDayIsNear(year: int, month: int, day: int, local: Instant)
    requires ValidDate(2000, month, day) && LocalYear(local) == year
    ensures Nine(year, month, day) <= local + 366 * 86_400_000_000_000
  {
    DayNumberYear(year, month, day);
    YearStartNext(year);
    assert YearStart(year) <= LocalDay(local);
  }

  /**
   * A year after the occurrence in year `year`: the occurrence of the next year, except from the
   * 1 March a common year's 29 February carried over to, where it is the next 1 March.
   */
  lemma YearLaterOfNine(year: int, month: int, day: int)
    requires ValidDate(2000, month, day)
    ensures AtNine(YearLater(DayNumber(year, month, day)))
            == if month == 2 && day == 29 && !IsLeap(year) then Nine(year + 1, 3, 1) else Nine(year + 1, month, day)
  {
    hide YearStart, YearOf, DaysBefore;
    if month == 2 && day == 29 {
      LeapDayCarries(year);
    } else {
      assert ValidDate(year, month, day) by {
        ValidInEveryYear(year, month, day);
      }
      CivilOfDayNumber(year, month, day);
    }
  }

  /** Any month and day of a leap year but 29 February exist in every year. */
  lemma ValidInEveryYear(year: int, month: int, day: int)
    requires ValidDate(2000, month, day) && !(month == 2 && day == 29)
    ensures ValidDate(year, month, day)
  {
    assert IsLeap(2000);
  }

  lemma LeapNine(year: int)
    ensures !IsLeap(year) ==> Nine(year, 2, 29) == Nine(year, 3, 1)
    ensures IsLeap(year) ==> Nine(year, 2, 29) < Nine(year, 3, 1)
  {
    LeapDayCarries(year);
  }

  /** The local reminder time, case by case. */
  function LocalReminder(month: int, day: int, local: Instant): Instant {
    var year := LocalYear(local);
    if Nine(year, month, day) > local then Nine(year, month, day)
    else if month == 2 && day == 29 && !IsLeap(year) then Nine(year + 1, 3, 1)
    else Nine(year + 1, month, day)
  }

  lemma NextRemindAtByCase(month: int, day: int, now: Instant, offset: int)
    requires ValidDate(2000, month, day)
    ensures NextRemindAt(month, day, now, offset) == LocalReminder(month, day, now + offset) - offset
  {
    hide YearLater, DayNumber, YearOf;
    YearLaterOfNine(LocalYear(now + offset), month, day);
  }

  lemma LocalReminderIsSoon(month: int, day: int, local: Instant)
    requires ValidDate(2000, month, day)
    ensures local < LocalReminder(month, day, local) <= local + 366 * 86_400_000_000_000
  {
    hide Nine, LocalYear;
    var year := LocalYear(local);
    if Nine(year, month, day) > local {
      LastDayIsNear(year, month, day, local);
    } else if month == 2 && day == 29 && !IsLeap(year) {
      LeapNine(year);
      NineStep(year, 3, 1);
      NineBesideNow(year + 1, 3, 1, local);
    } else {
      NineStep(year, month, day);
      NineBesideNow(year + 1, month, day, local);
    }
  }

  /** The reminder lies after now, and at most 366 days away. */
  lemma NextRemindAtIsSoon(month: int, day: int, now: Instant, offset: int)
    requires ValidDate(2000, month, day)
    ensures now < NextRemindAt(month, day, now, offset) <= now + 366 * 86_400_000_000_000
  {
    hide *;
    var local := now + offset;
    LocalReminderIsSoon(month, day, local);
    assert NextRemindAt(month, day, now, offset) == LocalReminder(month, day, local) - offset by {
      NextRemindAtByCase(month, day, now, offset);
    }
  }

  /** It is at nine in the morning, local time, of the day itself or of the 1 March that a leap day carried over to. */
  lemma NextRemindAtIsAtNine(month: int, day: int, now: Instant, offset: int)
    requires ValidDate(2000, month, day)
    ensures var local := NextRemindAt(month, day, now, offset) + offset;
            && local % 86_400_000_000_000 == 9 * 3_600_000_000_000
            && var date := Civil(LocalDay(local));
               (date.month, date.day) == (month, day) || ((month, day) == (2, 29) && (date.month, date.day) == (3, 1))
  {
    hide Nine, DayNumber, Civil, YearOf, YearStart, LocalYear, LocalDay, NextRemindAt, DaysBefore, IsLeap;
    NextRemindAtByCase(month, day, now, offset);
    var year := LocalYear(now + offset);
    NineIsAtNine(year, month, day);
    CivilInYear(year, month, day);
    NineIsAtNine(year + 1, month, day);
    CivilInYear(year + 1, month, day);
    NineIsAtNine(year + 1, 3, 1);
    MarchFirst(year + 1);
  }

  lemma MarchFirst(year: int)
    ensures Civil(DayNumber(year, 3, 1)) == Date(year, 3, 1)
  {
    hide DayNumber, Civil;
    CivilOfDayNumber(year, 3, 1);
  }

  lemma NineIsAtNine(year: int, month: int, day: int)
    ensures Nine(year, month, day) % 86_400_000_000_000 == 9 * 3_600_000_000_000
    ensures LocalDay(Nine(year, month, day)) == DayNumber(year, month, day)
  {
    LocalDayOfNine(year, month, day);
    hide DayNumber;
    NineAfterMidnight(DayNumber(year, month, day));
  }

  lemma NineAfterMidnight(n: int)
    ensures AtNine(n) % 86_400_000_000_000 == 9 * 3_600_000_000_000
  {
  }

  lemma CivilInYear(year: int, month: int, day: int)
    requires ValidDate(2000, month, day)
    ensures Civil(DayNumber(year, month, day))
            == if month == 2 && day == 29 && !IsLeap(year) then Date(year, 3, 1) else Date(year, month, day)
  {
    hide DayNumber, Civil;
    if month == 2 && day == 29 {
      LeapDayCarries(year);
    } else {
      ValidInEveryYear(year, month, day);
      CivilOfDayNumber(year, month, day);
    }
  }

  ghost predicate IsOccurrence(month: int, day: int, local: Instant) {
    exists year :: local == Nine(year, month, day)
  }

  /** `t` is the first 09:00 occurrence after `local`. */
  ghost predicate IsFirstAfter(month: int, day: int, local: Instant, t: Instant) {
    && t > local && IsOccurrence(month, day, t)
    && forall u :: IsOccurrence(month, day, u) && u > local ==> u >= t
  }

  /** Now is past the 1 March of a common year that a leap year follows. */
  predicate LeapDayAhead(local: Instant) {
    !IsLeap(LocalYear(local)) && IsLeap(LocalYear(local) + 1) && Nine(LocalYear(local), 3, 1) <= local
  }

  lemma FirstAfterByYear(month: int, day: int, local: Instant, year: int)
    requires ValidDate(2000, month, day)
    requires Nine(year, month, day) > local && Nine(year - 1, month, day) <= local
    ensures IsFirstAfter(month, day, local, Nine(year, month, day))
  {
    hide Nine, YearOf;
    forall u | IsOccurrence(month, day, u) && u > local ensures u >= Nine(year, month, day) {
      var y :| u == Nine(y, month, day);
      if y < year - 1 {
        NineMonotone(y, year - 1, month, day);
      } else if y > year {
        NineMonotone(year, y, month, day);
      }
    }
  }

  lemma LocalReminderIsFirst(month: int, day: int, local: Instant)
    requires ValidDate(2000, month, day)
    requires !(month == 2 && day == 29 && LeapDayAhead(local))
    ensures IsFirstAfter(month, day, local, LocalReminder(month, day, local))
  {
    hide Nine, LocalYear;
    var year := LocalYear(local);
    if Nine(year, month, day) > local {
      NineBesideNow(year - 1, month, day, local);
      FirstAfterByYear(month, day, local, year);
    } else {
      NineBesideNow(year + 1, month, day, local);
      FirstAfterByYear(month, day, local, year + 1);
      LeapNine(year);
      LeapNine(year + 1);
    }
  }

  lemma LeapDayIsMissed(local: Instant)
    requires LeapDayAhead(local)
    ensures LocalReminder(2, 29, local) == Nine(LocalYear(local) + 1, 3, 1)
    ensures !IsFirstAfter(2, 29, local, LocalReminder(2, 29, local))
  {
    hide Nine, YearOf, LocalYear;
    var year := LocalYear(local);
    LeapNine(year);
    LeapNine(year + 1);
    NineBesideNow(year + 1, 2, 29, local);
    assert IsOccurrence(2, 29, Nine(year + 1, 2, 29));
  }

  /**
   * No occurrence lies between now and the reminder, except for a 29 February reminder computed
   * after the 1 March of a common year before a leap year: that one misses the leap day.
   */
  lemma NextRemindAtIsFirst(month: int, day: int, now: Instant, offset: int)
    requires ValidDate(2000, month, day)
    ensures IsFirstAfter(month, day, now + offset, NextRemindAt(month, day, now, offset) + offset)
            <==> !(month == 2 && day == 29 && LeapDayAhead(now + offset))
  {
    hide *;
    var local := now + offset;
    assert NextRemindAt(month, day, now, offset) + offset == LocalReminder(month, day, local) by {
      NextRemindAtByCase(month, day, now, offset);
    }
    if month == 2 && day == 29 && LeapDayAhead(local) {
      LeapDayIsMissed(local);
    } else {
      LocalReminderIsFirst(month, day, local);
    }
  }

  lemma EarlierMonthIsEarlier(year: int, month: int, day: int, month': int, day': int)
    requires 1 <= month <= 12 && 1 <= month' <= 12
    requires DaysBefore(month, IsLeap(year)) + day < DaysBefore(month', IsLeap(year)) + day'
    ensures Nine(year, month, day) < Nine(year, month', day')
  {
    DayNumberPlain(year, month, day);
    DayNumberPlain(year, month', day');
    hide DayNumber, YearStart, DaysBefore;
  }

  lemma June2023IsAhead()
    ensures LocalYear(Nine(2023, 6, 1)) == 2023 && LeapDayAhead(Nine(2023, 6, 1))
  {
    assert ValidDate(2000, 6, 1);
    NineYear(2023, 6, 1);
    EarlierMonthIsEarlier(2023, 3, 1, 6, 1);
    hide Nine, LocalYear;
  }

  lemma LeapDayPrecedesMarch()
    ensures Nine(2024, 2, 29) < Nine(2024, 3, 1)
  {
    EarlierMonthIsEarlier(2024, 2, 29, 3, 1);
  }

  /** At 09:00 on 1 June 2023 the next 29 February reminder is set to 1 March 2024, a day after the leap day. */
  lemma LeapDayOf2024IsMissed()
    ensures var now := Nine(2023, 6, 1);
            && NextRemindAt(2, 29, now, 0) == Nine(2024, 3, 1)
            && now < Nine(2024, 2, 29) < Nine(2024, 3, 1)
  {
    assert ValidDate(2000, 2, 29);
    hide *;
    var now := Nine(2023, 6, 1);
    June2023IsAhead();
    LeapDayPrecedesMarch();
    NineBesideNow(2024, 2, 29, now);
    LeapDayIsMissed(now);
    NextRemindAtByCase(2, 29, now, 0);
  }

  // Reminders of two days

  /** At midnight on 1 January 2000 every day of that year is still ahead. */
  function LeapYearBegins(): Instant {
    YearStart(2000) * 86_400_000_000_000
  }

  lemma AheadInLeapYear(month: int, day: int)
    requires ValidDate(2000, month, day)
    ensures NextRemindAt(month, day, LeapYearBegins(), 0) == Nine(2000, month, day)
  {
    hide YearStart, YearOf, DayNumber;
    DayNumberYear(2000, 1, 1);
    DayNumberPlain(2000, 1, 1);
    DayNumberYear(2000, month, day);
    assert LocalDay(LeapYearBegins()) == YearStart(2000);
  }

  /** Two days are reminded of at the same times, whatever the time is now, only when they are the same day. */
  lemma DaysAreToldApart(month: int, day: int, month': int, day': int)
    requires ValidDate(2000, month, day) && ValidDate(2000, month', day')
    ensures (forall now, offset :: NextRemindAt(month, day, now, offset) == NextRemindAt(month', day', now, offset))
            <==> month == month' && day == day'
  {
    hide NextRemindAt, DayNumber, Civil, ValidDate, LeapYearBegins;
    if forall now, offset :: NextRemindAt(month, day, now, offset) == NextRemindAt(month', day', now, offset) {
      AheadInLeapYear(month, day);
      AheadInLeapYear(month', day');
      assert NextRemindAt(month, day, LeapYearBegins(), 0) == NextRemindAt(month', day', LeapYearBegins(), 0);
      assert DayNumber(2000, month, day) == DayNumber(2000, month', day');
      CivilOfDayNumber(2000, month, day);
      CivilOfDayNumber(2000, month', day');
    }
  }
}

/** What the cron search promises: the result is the earliest match, and exactly when there is none. */
module CronLaws {
  import opened Durations
  import opened Int64
  import opened Text
  import opened Calendar
  import opened CronField
  import opened CronSearch

  /** A field as the parser leaves it, reduced to what the search needs. */
  ghost predicate WellFormedField(f: Field, min: int, max: int) {
    exists v :: v in f.values && min <= v <= max
  }

  ghost predicate WellFormed(f: Fields) {
    && WellFormedField(f.minute, 0, 59)
    && WellFormedField(f.hour, 0, 23)
    && WellFormedField(f.dayOfMonth, 1, 31)
    && WellFormedField(f.month, 1, 12)
    && WellFormedField(f.dayOfWeek, 0, 7)
  }

  // ---------- the earliest match ----------

  /** The local minute of an instant lies strictly after another instant. */
  predicate MinuteAfter(m: int, after: int, offset: int) { m * MINUTE > after + offset }

  /** The zone's seconds push the start of the search past a whole local minute that is already
      after `after`: truncation is of the absolute time, not of the local one. */
  predicate SkipsAMinute(after: int, offset: int) {
    0 < offset % MINUTE && after % MINUTE + offset % MINUTE < MINUTE
  }

  lemma StartMinuteValue(after: int, offset: int)
    ensures StartMinute(after, offset) == (after + offset) / MINUTE + 1 +
      (if SkipsAMinute(after, offset) then 1 else 0)
  {
    var a, r := after / MINUTE, after % MINUTE;
    var o, s := offset / MINUTE, offset % MINUTE;
    CeilDivMeaning(StartLocal(after, offset), MINUTE);
    assert StartLocal(after, offset) == (a + o + 1) * MINUTE + s;
    assert after + offset == (a + o) * MINUTE + (r + s);
  }

  /** The search starts at the first whole local minute after `after`, except that it starts one
      minute later exactly when a zone with stray seconds skips that minute. */
  lemma SearchStart(after: int, offset: int)
    ensures MinuteAfter(StartMinute(after, offset), after, offset)
    ensures (forall m :: MinuteAfter(m, after, offset) ==> m >= StartMinute(after, offset)) <==>
      !SkipsAMinute(after, offset)
    ensures !MinuteAfter(StartMinute(after, offset) - 2, after, offset)
  {
    StartMinuteValue(after, offset);
    var first := (after + offset) / MINUTE + 1;
    assert MinuteAfter(first, after, offset) && !MinuteAfter(first - 1, after, offset);
    forall m | MinuteAfter(m, after, offset) ensures m >= first {}
  }

  /** The local minute that the search returns. */
  lemma ReturnedMinute(f: Fields, after: int, offset: int) returns (m: int)
    requires Occurrence(f, after, offset).Some?
    ensures IsFirst(f, after, offset, m) && Occurrence(f, after, offset).value == m * MINUTE - offset
  {
    OccurrenceMeaning(f, after, offset);
    m :| IsFirst(f, after, offset, m) && Occurrence(f, after, offset) == Some(m * MINUTE - offset);
  }

  lemma WholeMinute(t: int, m: int, offset: int)
    requires t == m * MINUTE - offset
    ensures (t + offset) % MINUTE == 0 && (t + offset) / MINUTE == m
  {
  }

  /** No minute after `after` lies before the start, but for the one a zone may skip. */
  lemma BeforeStart(after: int, offset: int, k: int)
    requires k < StartMinute(after, offset) && MinuteAfter(k, after, offset)
    ensures SkipsAMinute(after, offset) && k == StartMinute(after, offset) - 1
  {
    StartMinuteValue(after, offset);
  }

  lemma FromStart(after: int, offset: int, k: int)
    requires k >= StartMinute(after, offset) ||
      (SkipsAMinute(after, offset) && k == StartMinute(after, offset) - 1)
    ensures MinuteAfter(k, after, offset)
  {
    StartMinuteValue(after, offset);
  }

  /** No selected minute lies after `after` and before local minute `m`. */
  ghost predicate EarliestAfter(f: Fields, after: int, offset: int, m: int) {
    forall k :: k < m && Matches(f, k) ==> !MinuteAfter(k, after, offset)
  }

  lemma FirstIsEarliest(f: Fields, after: int, offset: int, m: int)
    requires IsFirst(f, after, offset, m)
    ensures MinuteAfter(m, after, offset)
    ensures EarliestAfter(f, after, offset, m) <==>
      !(SkipsAMinute(after, offset) && Matches(f, StartMinute(after, offset) - 1))
  {
    hide StartMinute, EndDay, SkipsAMinute, MinuteAfter, Matches;
    var first := StartMinute(after, offset);
    FromStart(after, offset, m);
    if SkipsAMinute(after, offset) && Matches(f, first - 1) {
      FromStart(after, offset, first - 1);
    } else {
      forall k | k < m && Matches(f, k) ensures !MinuteAfter(k, after, offset) {
        if MinuteAfter(k, after, offset) {
          assert k < first;
          BeforeStart(after, offset, k);
        }
      }
    }
  }

  /** The time returned is a whole local minute strictly after `after` that the schedule selects.
      It is the earliest such minute exactly when no selected minute falls into a skipped one;
      in a zone of whole minutes it always is. */
  lemma OccurrenceEarliest(f: Fields, after: int, offset: int)
    requires Occurrence(f, after, offset).Some?
    ensures var t := Occurrence(f, after, offset).value; var m := (t + offset) / MINUTE;
      && t > after && (t + offset) % MINUTE == 0 && Matches(f, m)
      && (EarliestAfter(f, after, offset, m) <==>
          !(SkipsAMinute(after, offset) && Matches(f, StartMinute(after, offset) - 1)))
  {
    hide Occurrence, StartMinute, EndDay, SkipsAMinute, Matches;
    var m := ReturnedMinute(f, after, offset);
    WholeMinute(Occurrence(f, after, offset).value, m, offset);
    FirstIsEarliest(f, after, offset, m);
  }

  /** A skipped minute exists: half a minute off, from instant 0, local minute 1 is passed over. */
  lemma SkippedMinuteExample()
    ensures SkipsAMinute(0, MINUTE / 2) && StartMinute(0, MINUTE / 2) == 2 && MinuteAfter(1, 0, MINUTE / 2)
  {
    StartMinuteValue(0, MINUTE / 2);
  }

  /** The window is never empty. */
  lemma WindowHasMinutes(after: int, offset: int)
    ensures StartMinute(after, offset) < EndDay(after, offset) * 1440
  {
    hide DayNumber, StartMinute, EndDay, StartDate;
    WindowBounds(after, offset);
    var start := StartDate(after, offset);
    AddYearsValid(start, 5);
    NextDayNumber(start);
    DayNumberOrder(NextDay(start), AddYears(start, 5));
  }

  lemma FoundAtOnce(f: Fields, after: int, offset: int)
    requires Matches(f, StartMinute(after, offset))
    ensures Occurrence(f, after, offset) == Some(StartMinute(after, offset) * MINUTE - offset)
  {
    hide Matches, StartMinute, EndDay;
    WindowHasMinutes(after, offset);
  }

  // ---------- what a schedule selects ----------

  /** With a star for the weekday a schedule selects a date by its month and its day alone. */
  lemma DayOfMonthRule(f: Fields, date: Date, hour: int, minute: int)
    requires Valid(date) && 0 <= hour <= 23 && 0 <= minute <= 59
    requires f.dayOfWeek.wildcard && !f.dayOfMonth.wildcard
    ensures Matches(f, DayNumber(date) * 1440 + hour * 60 + minute) <==>
      minute in f.minute.values && hour in f.hour.values && date.month in f.month.values && date.day in f.dayOfMonth.values
  {
    hide DayNumber, Matches;
    MatchesAt(f, date, hour, minute);
  }

  /** With a wildcard for the day of the month it goes by the month and the weekday alone, Sunday being 0
      or 7, whatever values the day field holds. */
  lemma WeekdayRule(f: Fields, date: Date, hour: int, minute: int)
    requires Valid(date) && 0 <= hour <= 23 && 0 <= minute <= 59 && f.dayOfMonth.wildcard
    ensures Matches(f, DayNumber(date) * 1440 + hour * 60 + minute) <==>
      minute in f.minute.values && hour in f.hour.values && date.month in f.month.values &&
      (Weekday(date) in f.dayOfWeek.values || (Weekday(date) == 0 && 7 in f.dayOfWeek.values))
  {
    hide DayNumber, Matches;
    MatchesAt(f, date, hour, minute);
  }

  /** The two schedules that a schedule with both day fields restricted combines. */
  predicate Halves(f: Fields, byDay: Fields, byWeekday: Fields) {
    !f.dayOfMonth.wildcard && !f.dayOfWeek.wildcard &&
    byDay.dayOfWeek.wildcard && byDay == f.(dayOfWeek := byDay.dayOfWeek) &&
    byWeekday.dayOfMonth.wildcard && byWeekday == f.(dayOfMonth := byWeekday.dayOfMonth)
  }

  /** With both day fields restricted a minute is selected when either of them alone selects it. */
  lemma EitherDayRule(f: Fields, byDay: Fields, byWeekday: Fields, m: int)
    requires Halves(f, byDay, byWeekday)
    ensures Matches(f, m) <==> Matches(byDay, m) || Matches(byWeekday, m)
  {
    hide DateOf;
  }

  function Earlier(a: Option<int>, b: Option<int>): Option<int> {
    if a.None? then b else if b.None? || a.value <= b.value then a else b
  }

  /** So its next time is the earlier one of the two. */
  lemma EitherDayOccurrence(f: Fields, byDay: Fields, byWeekday: Fields, after: int, offset: int)
    requires Halves(f, byDay, byWeekday)
    ensures Occurrence(f, after, offset) == Earlier(Occurrence(byDay, after, offset), Occurrence(byWeekday, after, offset))
  {
    hide Matches, StartMinute, EndDay, Halves;
    EitherFirst(f, byDay, byWeekday, StartMinute(after, offset), EndDay(after, offset) * 1440);
  }

  lemma {:induction false} EitherFirst(f: Fields, byDay: Fields, byWeekday: Fields, lo: int, hi: int)
    requires Halves(f, byDay, byWeekday)
    ensures FirstMatch(f, lo, hi) == Earlier(FirstMatch(byDay, lo, hi), FirstMatch(byWeekday, lo, hi))
    decreases hi - lo
  {
    hide Matches, Halves;
    if lo < hi {
      EitherDayRule(f, byDay, byWeekday, lo);
      if !Matches(f, lo) { EitherFirst(f, byDay, byWeekday, lo + 1, hi); }
      FirstMatchMeaning(byDay, lo, hi);
      FirstMatchMeaning(byWeekday, lo, hi);
    }
  }

  /** The first day not searched, by its date: five years after the start, 29 February falling over to
      1 March; or the day after it, unless the start is at midnight. */
  lemma SearchedYears(after: int, offset: int)
    ensures var (start, date) := (StartLocal(after, offset), StartDate(after, offset));
      var last := if date.month == 2 && date.day == 29 then Date(date.year + 5, 3, 1)
                  else Date(date.year + 5, date.month, date.day);
      DayNumber(date) == start / DAY && Valid(last) &&
      EndDay(after, offset) == DayNumber(last) + if start % DAY == 0 then 0 else 1
  {
    var start, date := StartLocal(after, offset), StartDate(after, offset);
    FiveYearsOn(date);
    hide DayNumber, DateOf, StartLocal;
    CeilOfDays(DayNumber(AddYears(date, 5)), start % DAY);
  }

  lemma FiveYearsOn(date: Date)
    requires Valid(date)
    ensures Valid(AddYears(date, 5))
    ensures AddYears(date, 5) ==
      if date.month == 2 && date.day == 29 then Date(date.year + 5, 3, 1) else Date(date.year + 5, date.month, date.day)
  {
  }

  lemma CeilOfDays(days: int, rest: int)
    requires 0 <= rest < DAY
    ensures CeilDiv(days * DAY + rest, DAY) == days + if rest == 0 then 0 else 1
  {
  }

  // ---------- when the search fails ----------

  /** Only the day-of-month field decides the day. */
  predicate DayOfMonthDecides(f: Fields) { !f.dayOfMonth.wildcard && f.dayOfWeek.wildcard }

  /** No year has this month and day. */
  predicate NeverExists(month: int, day: int) {
    month < 1 || month > 12 || day < 1 || day > MonthLength(2000, month)
  }

  /** Some searched 29 February still has a selected minute ahead of the start. */
  ghost predicate LeapDayAhead(f: Fields, after: int, offset: int, year: int) {
    IsLeap(year) && DayNumber(Date(year, 2, 29)) < EndDay(after, offset) &&
    exists hour, minute :: 0 <= hour <= 23 && 0 <= minute <= 59 &&
      hour in f.hour.values && minute in f.minute.values &&
      DayNumber(Date(year, 2, 29)) * 1440 + hour * 60 + minute >= StartMinute(after, offset)
  }

  /** Every selected month and day never exists, or is a 29 February that does not come up. */
  ghost predicate NoDayToCome(f: Fields, after: int, offset: int) {
    forall month, day :: month in f.month.values && day in f.dayOfMonth.values ==>
      NeverExists(month, day) || (month == 2 && day == 29 && forall year :: !LeapDayAhead(f, after, offset, year))
  }

  /** Year after the start: all of it is searched. */
  lemma NextYearSearched(after: int, offset: int, date: Date, clock: int)
    requires Valid(date) && date.year == StartDate(after, offset).year + 1 && 0 <= clock < 1440
    ensures StartMinute(after, offset) <= DayNumber(date) * 1440 + clock < EndDay(after, offset) * 1440
  {
    var start := StartDate(after, offset);
    var limit := AddYears(start, 5);
    AddYearsValid(start, 5);
    DayNumberOrder(start, date);
    DayNumberOrder(date, limit);
    WindowBounds(after, offset);
  }

  /** The search starts on the start date, or at the midnight that ends it, and ends on or just
      after the date five years later. */
  lemma WindowBounds(after: int, offset: int)
    ensures var n := DayNumber(StartDate(after, offset)); var l := DayNumber(AddYears(StartDate(after, offset), 5));
      n * 1440 <= StartMinute(after, offset) <= n * 1440 + 1440 && l <= EndDay(after, offset) <= l + 1
  {
    var start, limit := StartLocal(after, offset), LimitLocal(after, offset);
    CeilDivMeaning(start, MINUTE);
    CeilDivMeaning(limit, DAY);
  }

  lemma FoundInWindow(f: Fields, after: int, offset: int, date: Date, hour: int, minute: int)
    requires Valid(date) && DateMatches(f, date) && 0 <= hour <= 23 && 0 <= minute <= 59
    requires hour in f.hour.values && minute in f.minute.values
    requires var m := DayNumber(date) * 1440 + hour * 60 + minute;
      StartMinute(after, offset) <= m < EndDay(after, offset) * 1440
    ensures Occurrence(f, after, offset).Some?
  {
    MatchesAt(f, date, hour, minute);
    OccurrenceMeaning(f, after, offset);
  }

  /** A selected date in the year after the start is always found. */
  lemma FoundNextYear(f: Fields, after: int, offset: int, date: Date)
    requires WellFormed(f) && Valid(date) && DateMatches(f, date)
    requires date.year == StartDate(after, offset).year + 1
    ensures Occurrence(f, after, offset).Some?
  {
    var hour :| hour in f.hour.values && 0 <= hour <= 23;
    var minute :| minute in f.minute.values && 0 <= minute <= 59;
    NextYearSearched(after, offset, date, hour * 60 + minute);
    FoundInWindow(f, after, offset, date, hour, minute);
  }

  lemma ShiftedWeekday(n: int, weekday: int, shift: int)
    requires 0 <= weekday <= 6 && shift == (weekday - (n + 1) % 7) % 7
    ensures (n + shift + 1) % 7 == weekday
  {
    var q, r := (n + 1) / 7, (n + 1) % 7;
    ModUnique(weekday - r, 7, if r <= weekday then 0 else -1, shift);
    ModUnique(n + shift + 1, 7, if r <= weekday then q else q + 1, weekday);
  }

  /** Every month has every weekday in its first seven days. */
  lemma WeekdayInMonth(year: int, month: int, weekday: int) returns (date: Date)
    requires 1 <= month <= 12 && 0 <= weekday <= 6
    ensures Valid(date) && date.year == year && date.month == month && Weekday(date) == weekday
  {
    var first := Date(year, month, 1);
    var n := DayNumber(first);
    var shift := (weekday - Weekday(first)) % 7;
    date := Date(year, month, 1 + shift);
    assert DayNumber(date) == n + shift;
    hide DayNumber;
    ShiftedWeekday(n, weekday, shift);
  }

  lemma WeekdayDecidesFinds(f: Fields, after: int, offset: int)
    requires WellFormed(f) && !DayOfMonthDecides(f)
    ensures Occurrence(f, after, offset).Some?
  {
    var month :| month in f.month.values && 1 <= month <= 12;
    var w :| w in f.dayOfWeek.values && 0 <= w <= 7;
    var date := WeekdayInMonth(StartDate(after, offset).year + 1, month, if w == 7 then 0 else w);
    FoundNextYear(f, after, offset, date);
  }

  lemma DayToComeFinds(f: Fields, after: int, offset: int)
    requires WellFormed(f) && DayOfMonthDecides(f) && !NoDayToCome(f, after, offset)
    ensures Occurrence(f, after, offset).Some?
  {
    var month, day :| month in f.month.values && day in f.dayOfMonth.values && !NeverExists(month, day) &&
      !(month == 2 && day == 29 && forall year :: !LeapDayAhead(f, after, offset, year));
    if month == 2 && day == 29 {
      var year :| LeapDayAhead(f, after, offset, year);
      var hour, minute :| 0 <= hour <= 23 && 0 <= minute <= 59 &&
        hour in f.hour.values && minute in f.minute.values &&
        DayNumber(Date(year, 2, 29)) * 1440 + hour * 60 + minute >= StartMinute(after, offset);
      FoundInWindow(f, after, offset, Date(year, 2, 29), hour, minute);
    } else {
      FoundNextYear(f, after, offset, Date(StartDate(after, offset).year + 1, month, day));
    }
  }

  lemma ExistingDate(date: Date)
    requires Valid(date)
    ensures !NeverExists(date.month, date.day)
    ensures date.month == 2 && date.day == 29 ==> IsLeap(date.year)
  {
  }

  lemma NoDayToComeFails(f: Fields, after: int, offset: int)
    requires DayOfMonthDecides(f) && NoDayToCome(f, after, offset)
    ensures Occurrence(f, after, offset) == None
  {
    OccurrenceMeaning(f, after, offset);
    forall m | StartMinute(after, offset) <= m < EndDay(after, offset) * 1440 ensures !Matches(f, m) {
      if Matches(f, m) { MatchContradicts(f, after, offset, m); }
    }
  }

  lemma MatchContradicts(f: Fields, after: int, offset: int, m: int)
    requires DayOfMonthDecides(f) && NoDayToCome(f, after, offset)
    requires StartMinute(after, offset) <= m < EndDay(after, offset) * 1440
    ensures !Matches(f, m)
  {
    var date, clock := DateOf(m / 1440), m % 1440;
    if Matches(f, m) {
      ExistingDate(date);
      assert date.month in f.month.values && date.day in f.dayOfMonth.values;
      LeapDayAt(f, after, offset, date.year, date, clock);
    }
  }

  lemma LeapDayAt(f: Fields, after: int, offset: int, year: int, date: Date, clock: int)
    requires date == Date(year, 2, 29) && IsLeap(year) && 0 <= clock < 1440 && ClockMatches(f, clock)
    requires StartMinute(after, offset) <= DayNumber(date) * 1440 + clock
    requires DayNumber(date) < EndDay(after, offset)
    ensures LeapDayAhead(f, after, offset, year)
  {
    var hour, minute := clock / 60, clock % 60;
    assert clock == hour * 60 + minute;
  }

  /** Exactly when a parsed schedule has no next time: the day of the month alone decides the
      day, and every selected month and day never exists or is a 29 February not coming up. */
  lemma OccurrenceFails(f: Fields, after: int, offset: int)
    requires WellFormed(f)
    ensures Occurrence(f, after, offset) == None <==> DayOfMonthDecides(f) && NoDayToCome(f, after, offset)
  {
    if !DayOfMonthDecides(f) {
      WeekdayDecidesFinds(f, after, offset);
    } else if NoDayToCome(f, after, offset) {
      NoDayToComeFails(f, after, offset);
    } else {
      DayToComeFinds(f, after, offset);
    }
  }

  /** A schedule that selects some date which every year has, or leaves the day to the weekday,
      always has a next time, whatever the instant and the zone. */
  ghost predicate NeverFails(f: Fields) {
    !DayOfMonthDecides(f) ||
    exists month, day :: month in f.month.values && day in f.dayOfMonth.values &&
      !NeverExists(month, day) && !(month == 2 && day == 29)
  }

  /** A search that starts at the midnight opening `date`, in UTC. */
  function MinuteBefore(date: Date): int
    requires Valid(date)
  {
    DayNumber(date) * DAY - MINUTE
  }

  lemma StartsOn(date: Date)
    requires Valid(date)
    ensures StartDate(MinuteBefore(date), 0) == date
  {
    hide DayNumber, DateOf;
    assert StartLocal(MinuteBefore(date), 0) == DayNumber(date) * DAY;
    DateOfDayNumber(date);
  }

  lemma NoLeapYears(year: int)
    requires IsLeap(year)
    ensures year < 1897 || year > 1902
  {
  }

  /** From 1 January 1897 on, no leap day comes up within five years. */
  lemma NoLeapDayInWindow(f: Fields, after: int, year: int, first: Date, last: Date)
    requires first == Date(1897, 1, 1) && StartDate(after, 0) == first && last == AddYears(first, 5)
    ensures !LeapDayAhead(f, after, 0, year)
  {
    hide DayNumber, StartMinute, EndDay, StartDate;
    WindowBounds(after, 0);
    if IsLeap(year) {
      NoLeapYears(year);
      var leapDay := Date(year, 2, 29);
      NextDayNumber(last);
      DayNumberOrder(leapDay, first);
      DayNumberOrder(NextDay(last), leapDay);
    }
  }

  lemma FailsFrom1897(f: Fields, first: Date)
    requires WellFormed(f) && !NeverFails(f) && first == Date(1897, 1, 1)
    ensures Occurrence(f, MinuteBefore(first), 0) == None
  {
    hide DayNumber, StartMinute, EndDay, StartDate, MinuteBefore, LeapDayAhead, Occurrence;
    var after := MinuteBefore(first);
    StartsOn(first);
    forall year ensures !LeapDayAhead(f, after, 0, year) {
      NoLeapDayInWindow(f, after, year, first, AddYears(first, 5));
    }
    OccurrenceFails(f, after, 0);
  }

  /** Every other schedule whose day is decided by the month and day fails at some instant. */
  lemma NeverFailsMeaning(f: Fields)
    requires WellFormed(f)
    ensures NeverFails(f) <==> forall after, offset :: Occurrence(f, after, offset).Some?
  {
    if NeverFails(f) {
      forall after, offset ensures Occurrence(f, after, offset).Some? {
        OccurrenceFails(f, after, offset);
      }
    } else {
      FailsFrom1897(f, Date(1897, 1, 1));
    }
  }
}

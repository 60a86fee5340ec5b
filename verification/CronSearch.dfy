/** The next-occurrence search of the cron engine, in a zone with a fixed offset. Instants are
    nanoseconds since Go's zero time; a local minute is counted from the same midnight. */
module CronSearch {
  import opened Durations
  import opened Text
  import opened Calendar
  import opened CronField

  datatype Fields = Fields(minute: Field, hour: Field, dayOfMonth: Field, month: Field, dayOfWeek: Field)

  // ---------- what a schedule asks for ----------

  /** `cronDayMatches`. */
  predicate CronDayMatches(dayOfMonth: Field, dayOfWeek: Field, date: Date)
    requires Valid(date)
  {
    var dayMatch := date.day in dayOfMonth.values;
    var weekday := Weekday(date);
    var weekMatch := weekday in dayOfWeek.values || (weekday == 0 && 7 in dayOfWeek.values);
    if dayOfMonth.wildcard then weekMatch
    else if dayOfWeek.wildcard then dayMatch
    else dayMatch || weekMatch
  }

  predicate DateMatches(f: Fields, date: Date)
    requires Valid(date)
  {
    date.month in f.month.values && CronDayMatches(f.dayOfMonth, f.dayOfWeek, date)
  }

  predicate ClockMatches(f: Fields, clock: int) {
    clock / 60 in f.hour.values && clock % 60 in f.minute.values
  }

  /** The schedule fires at local minute `m`. */
  predicate Matches(f: Fields, m: int) {
    DateMatches(f, DateOf(m / 1440)) && ClockMatches(f, m % 1440)
  }

  /** The first matching minute in [lo, hi), looking at one minute after the other. */
  function FirstMatch(f: Fields, lo: int, hi: int): Option<int>
    decreases hi - lo
  {
    if lo >= hi then None else if Matches(f, lo) then Some(lo) else FirstMatch(f, lo + 1, hi)
  }

  ghost predicate NoMatch(f: Fields, lo: int, hi: int) {
    forall m :: lo <= m < hi ==> !Matches(f, m)
  }

  lemma NoMatchShrinks(f: Fields, lo: int, day: int, end: int)
    requires NoMatch(f, lo, day * 1440) && end <= day
    ensures NoMatch(f, lo, end * 1440)
  {
  }

  lemma {:induction false} FirstMatchMeaning(f: Fields, lo: int, hi: int)
    ensures FirstMatch(f, lo, hi) == None <==> NoMatch(f, lo, hi)
    ensures FirstMatch(f, lo, hi).Some? ==>
      var m := FirstMatch(f, lo, hi).value; lo <= m < hi && Matches(f, m) && NoMatch(f, lo, m)
    decreases hi - lo
  {
    hide Matches;
    if lo < hi && !Matches(f, lo) { FirstMatchMeaning(f, lo + 1, hi); }
  }

  // ---------- the window that is searched ----------

  function CeilDiv(a: int, b: int): int
    requires b > 0
  {
    -((-a) / b)
  }

  /** `after.In(location).Truncate(time.Minute).Add(time.Minute)`, as a local instant.
      Truncation is of the absolute time, whatever the zone. */
  function StartLocal(after: int, offset: int): int {
    after / MINUTE * MINUTE + MINUTE + offset
  }

  function StartDate(after: int, offset: int): (d: Date)
    ensures Valid(d)
  {
    DateOf(StartLocal(after, offset) / DAY)
  }

  /** `start.AddDate(5, 0, 0)` as a local instant: days from here on are not searched. */
  function LimitLocal(after: int, offset: int): int {
    var start := StartLocal(after, offset);
    DayNumber(AddYears(StartDate(after, offset), 5)) * DAY + start % DAY
  }

  /** The first local minute that is not before the start. */
  function StartMinute(after: int, offset: int): int { CeilDiv(StartLocal(after, offset), MINUTE) }

  /** The first day that is not searched. */
  function EndDay(after: int, offset: int): int { CeilDiv(LimitLocal(after, offset), DAY) }

  /** The plain form of the search: scan the window minute by minute. */
  function Occurrence(f: Fields, after: int, offset: int): Option<int> {
    match FirstMatch(f, StartMinute(after, offset), EndDay(after, offset) * 1440)
    case None => None
    case Some(m) => Some(m * MINUTE - offset)
  }

  lemma CeilDivMeaning(a: int, b: int)
    requires b == MINUTE || b == DAY
    ensures (CeilDiv(a, b) - 1) * b < a <= CeilDiv(a, b) * b
  {
  }

  // ---------- the search itself ----------

  lemma MatchesAt(f: Fields, date: Date, hour: int, minute: int)
    requires Valid(date) && 0 <= hour <= 23 && 0 <= minute <= 59
    ensures Matches(f, DayNumber(date) * 1440 + hour * 60 + minute) <==>
      DateMatches(f, date) && hour in f.hour.values && minute in f.minute.values
  {
    var clock := hour * 60 + minute;
    var m := DayNumber(date) * 1440 + clock;
    assert m / 1440 == DayNumber(date) && m % 1440 == clock;
    assert clock / 60 == hour && clock % 60 == minute;
    DateOfDayNumber(date);
  }

  /** The minutes of one day that are not searched because the day does not match. */
  lemma SkippedDay(f: Fields, date: Date)
    requires Valid(date) && !DateMatches(f, date)
    ensures NoMatch(f, DayNumber(date) * 1440, DayNumber(date) * 1440 + 1440)
  {
    forall m | DayNumber(date) * 1440 <= m < DayNumber(date) * 1440 + 1440 ensures !Matches(f, m) {
      assert m / 1440 == DayNumber(date);
      DateOfDayNumber(date);
    }
  }

  lemma SkippedHour(f: Fields, date: Date, hour: int)
    requires Valid(date) && 0 <= hour <= 23 && hour !in f.hour.values
    ensures var m := DayNumber(date) * 1440 + hour * 60; NoMatch(f, m, m + 60)
  {
    var base := DayNumber(date) * 1440 + hour * 60;
    forall m | base <= m < base + 60 ensures !Matches(f, m) {
      MatchesAt(f, date, hour, m - base);
    }
  }

  /** `m` is the first match of the window. */
  ghost predicate IsFirst(f: Fields, after: int, offset: int, m: int) {
    StartMinute(after, offset) <= m < EndDay(after, offset) * 1440 && Matches(f, m) &&
    NoMatch(f, StartMinute(after, offset), m)
  }

  /** The scan returns the first match of the window, and an error only when there is none. */
  lemma OccurrenceMeaning(f: Fields, after: int, offset: int)
    ensures Occurrence(f, after, offset) == None <==>
      NoMatch(f, StartMinute(after, offset), EndDay(after, offset) * 1440)
    ensures forall m :: IsFirst(f, after, offset, m) ==> Occurrence(f, after, offset) == Some(m * MINUTE - offset)
    ensures Occurrence(f, after, offset).Some? ==>
      exists m :: IsFirst(f, after, offset, m) && Occurrence(f, after, offset) == Some(m * MINUTE - offset)
  {
    hide Matches, StartMinute, EndDay;
    var lo, hi := StartMinute(after, offset), EndDay(after, offset) * 1440;
    FirstMatchMeaning(f, lo, hi);
    var r := FirstMatch(f, lo, hi);
    if r.Some? {
      assert IsFirst(f, after, offset, r.value);
    }
  }

  /** The body of the day loop of `nextScheduledTime`, with its hour and minute loops: the first
      selected minute of the day that is after `after` and not before the start. Instants are local;
      `first` is the first minute not before the start. */
  method SearchDay(f: Fields, date: Date, day: int, after: int, start: int, ghost first: int)
    returns (r: Option<int>)
    requires Valid(date) && day == DayNumber(date)
    requires (first - 1) * MINUTE < start <= first * MINUTE && after < start
    ensures r.None? ==> forall k :: day * 1440 <= k < (day + 1) * 1440 && first <= k ==> !Matches(f, k)
    ensures r.Some? ==> day * 1440 <= r.value < (day + 1) * 1440 && first <= r.value && Matches(f, r.value)
    ensures r.Some? ==> forall k :: day * 1440 <= k < r.value && first <= k ==> !Matches(f, k)
  {
    hide Matches, DateMatches, DayNumber;
    if !DateMatches(f, date) {
      SkippedDay(f, date);
      return None;
    }
    for hour := 0 to 24
      invariant forall k :: day * 1440 <= k < day * 1440 + hour * 60 && first <= k ==> !Matches(f, k)
    {
      if hour !in f.hour.values {
        SkippedHour(f, date, hour);
        continue;
      }
      for minute := 0 to 60
        invariant forall k :: day * 1440 <= k < day * 1440 + hour * 60 + minute && first <= k ==> !Matches(f, k)
      {
        MatchesAt(f, date, hour, minute);
        if minute !in f.minute.values { continue; }
        var candidate := day * 1440 + hour * 60 + minute;
        if candidate * MINUTE > after && candidate * MINUTE >= start {
          return Some(candidate);
        }
      }
    }
    return None;
  }

  lemma BelowLimit(day: int, limit: int, end: int)
    requires (end - 1) * DAY < limit <= end * DAY
    ensures day < end <==> day * DAY < limit
  {
  }

  /** The day loop of `nextScheduledTime`, from `day` up to the limit. */
  method SearchDays(f: Fields, date: Date, after: int, start: int, limit: int, ghost first: int, ghost end: int)
    returns (r: Option<int>)
    requires Valid(date) && DayNumber(date) * 1440 <= first
    requires (first - 1) * MINUTE < start <= first * MINUTE && after < start
    requires (end - 1) * DAY < limit <= end * DAY
    ensures r.None? ==> NoMatch(f, first, end * 1440)
    ensures r.Some? ==> first <= r.value < end * 1440 && Matches(f, r.value) && NoMatch(f, first, r.value)
  {
    var current, day := date, DayNumber(date);
    BelowLimit(day, limit, end);
    while day * DAY < limit
      invariant Valid(current) && day == DayNumber(current)
      invariant NoMatch(f, first, day * 1440)
      invariant day < end <==> day * DAY < limit
      decreases end - day
    {
      r := SearchDay(f, current, day, after, start, first);
      if r.Some? { return; }
      NextDayNumber(current);
      current, day := NextDay(current), day + 1;
      BelowLimit(day, limit, end);
    }
    NoMatchShrinks(f, first, day, end);
    return None;
  }

  lemma StartDateBounds(after: int, offset: int)
    ensures DayNumber(StartDate(after, offset)) * 1440 <= StartMinute(after, offset)
    ensures after + offset < StartLocal(after, offset)
  {
    CeilDivMeaning(StartLocal(after, offset), MINUTE);
  }

  /** The search of `nextScheduledTime` finds what the plain scan of the window finds. */
  method NextOccurrence(f: Fields, after: int, offset: int) returns (r: Option<int>)
    ensures r == Occurrence(f, after, offset)
  {
    var start, limit := StartLocal(after, offset), LimitLocal(after, offset);
    ghost var first, end := StartMinute(after, offset), EndDay(after, offset);
    StartDateBounds(after, offset);
    CeilDivMeaning(start, MINUTE);
    CeilDivMeaning(limit, DAY);
    var m := SearchDays(f, StartDate(after, offset), after + offset, start, limit, first, end);
    OccurrenceMeaning(f, after, offset);
    if m.None? { return None; }
    assert IsFirst(f, after, offset, m.value);
    return Some(m.value * MINUTE - offset);
  }
}

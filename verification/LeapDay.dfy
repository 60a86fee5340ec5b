/** A schedule that registers without complaint and has no next time later on: midnight on 29 February,
    between the leap day of 2096 and the end of February 2099. A run of the scheduler in which its deadline is
    handed out twice. */
module LeapDay {
  import opened Durations
  import opened Text
  import opened Calendar
  import opened CronField
  import opened CronSearch
  import opened CronLaws
  import opened CronSchedule
  import opened SchedulerModel
  import opened SchedulerLaws
  import opened SchedulerCron
  import Scheduler

  const SCHEDULE: string := "0 0 29 2 *"

  /** The instant at which 29 February 2096 begins. */
  function LeapMidnight(): int { DayNumber(Date(2096, 2, 29)) * DAY }

  /** The instant from which on the search starts in March 2099. */
  function BackInSight(): int { MinuteBefore(Date(2099, 3, 1)) }

  // ---------- the schedule ----------

  predicate OnLeapDays(f: Fields) {
    f.minute.values == {0} && f.hour.values == {0} && f.month.values == {2} &&
    f.dayOfMonth.values == {29} && !f.dayOfMonth.wildcard && f.dayOfWeek.wildcard
  }

  lemma ScheduleWords()
    ensures Join(["0", "0", "29", "2", "*"], ' ') == SCHEDULE
  {
    JoinNext("0", ["0", "29", "2", "*"]);
    JoinNext("0", ["29", "2", "*"]);
    JoinNext("29", ["2", "*"]);
    JoinNext("2", ["*"]);
  }

  lemma ScheduleNumbers()
    ensures Itoa(0) == "0" && Itoa(2) == "2" && Itoa(29) == "29"
  {
  }

  lemma ScheduleText()
    ensures TrimSpace(SCHEDULE) == SCHEDULE && !("@every " <= SCHEDULE) && Expand(SCHEDULE) == SCHEDULE
  {
    hide TrimSpace;
    UntrimmedText(SCHEDULE);
    EveryPrefix(SCHEDULE);
    assert SCHEDULE[0] == '0';
  }

  lemma ScheduleParses()
    ensures ParseSpec(SCHEDULE).Good? && OnLeapDays(AsFields(ParseSpec(SCHEDULE).fields))
    ensures WellFormed(AsFields(ParseSpec(SCHEDULE).fields))
  {
    var words, numbers := ["0", "0", "29", "2", "*"], [0, 0, 29, 2, 0];
    ScheduleWords();
    ScheduleNumbers();
    hide ParseSpec, Itoa, WellFormed, Join, ReadsAs, OnLeapDays, SCHEDULE;
    SimpleSpec(words, numbers);
    ParsedWellFormed(SCHEDULE);
    ScheduleFields(ParseSpec(SCHEDULE).fields);
  }

  lemma ScheduleFields(fields: seq<Field>)
    requires |fields| == 5
    requires ReadsAs("0", 0, 0, fields[0]) && ReadsAs("0", 0, 1, fields[1]) && ReadsAs("29", 29, 2, fields[2])
    requires ReadsAs("2", 2, 3, fields[3]) && ReadsAs("*", 0, 4, fields[4])
    ensures OnLeapDays(AsFields(fields))
  {
  }

  /** One minute before, the search finds the leap day. */
  lemma FoundTheDayBefore(f: Fields, date: Date)
    requires OnLeapDays(f) && date == Date(2096, 2, 29)
    ensures Occurrence(f, MinuteBefore(date), 0) == Some(DayNumber(date) * DAY)
  {
    hide DayNumber, Matches, StartMinute, OnLeapDays, Occurrence;
    LeapDaySelected(f, date);
    StartMinuteValue(MinuteBefore(date), 0);
    FoundAtOnce(f, MinuteBefore(date), 0);
  }

  lemma LeapDaySelected(f: Fields, date: Date)
    requires OnLeapDays(f) && Valid(date) && date.month == 2 && date.day == 29
    ensures Matches(f, DayNumber(date) * 1440)
  {
    hide DayNumber, Matches;
    MatchesAt(f, date, 0, 0);
  }

  /** From then on it finds nothing until the search starts in March 2099: 2100 has no leap day, and that of 2104
      is too far. */
  lemma NothingAhead(f: Fields, now: int, year: int)
    requires OnLeapDays(f) && LeapMidnight() <= now < BackInSight()
    ensures !LeapDayAhead(f, now, 0, year)
  {
    var leapDay := Date(year, 2, 29);
    if IsLeap(year) {
      if year <= 2096 {
        PastLeapDay(now, leapDay);
      } else {
        assert year >= 2104;
        FarLeapDay(now, leapDay);
      }
    }
  }

  lemma PastLeapDay(now: int, leapDay: Date)
    requires Valid(leapDay) && leapDay.year <= 2096 && leapDay.month == 2 && leapDay.day == 29
    requires LeapMidnight() <= now
    ensures DayNumber(leapDay) * 1440 < StartMinute(now, 0)
  {
    DayNumberOrder(leapDay, Date(2096, 2, 29));
    hide DayNumber, StartMinute;
    StartMinuteValue(now, 0);
  }

  lemma FarLeapDay(now: int, leapDay: Date)
    requires Valid(leapDay) && leapDay.year >= 2104 && leapDay.month == 2 && leapDay.day == 29
    requires now < BackInSight()
    ensures EndDay(now, 0) <= DayNumber(leapDay)
  {
    var start := StartDate(now, 0);
    StartsEarlier(now);
    EndsEarly(start);
    hide DayNumber, EndDay, StartDate, AddYears;
    DayNumberOrder(Date(2104, 2, 28), AddYears(start, 5));
    NextDayNumber(Date(2104, 2, 28));
    DayNumberOrder(leapDay, Date(2104, 2, 29));
    WindowBounds(now, 0);
  }

  lemma StartsEarlier(now: int)
    requires now < BackInSight()
    ensures Before(StartDate(now, 0), Date(2099, 3, 1))
  {
    hide DayNumber, DateOf;
    assert DayNumber(StartDate(now, 0)) < DayNumber(Date(2099, 3, 1));
    DayNumberOrder(StartDate(now, 0), Date(2099, 3, 1));
  }

  lemma EndsEarly(start: Date)
    requires Valid(start) && Before(start, Date(2099, 3, 1))
    ensures Valid(AddYears(start, 5)) && !Before(Date(2104, 2, 28), AddYears(start, 5))
  {
  }

  lemma NotFoundAfter(f: Fields, now: int)
    requires OnLeapDays(f) && WellFormed(f) && LeapMidnight() <= now < BackInSight()
    ensures Occurrence(f, now, 0) == None
  {
    hide LeapMidnight, LeapDayAhead, DayNumber, Occurrence;
    forall year ensures !LeapDayAhead(f, now, 0, year) { NothingAhead(f, now, year); }
    OccurrenceFails(f, now, 0);
  }

  /** Then it finds the leap day of 2104. */
  lemma FoundBackInSight(f: Fields)
    requires OnLeapDays(f)
    ensures Occurrence(f, BackInSight(), 0) == Some(DayNumber(Date(2104, 2, 29)) * DAY)
  {
    hide DayNumber, StartMinute, EndDay, Matches, BackInSight, OnLeapDays, Occurrence, NoMatch, Valid;
    var m := DayNumber(Date(2104, 2, 29)) * 1440;
    WindowBackInSight();
    LeapDayIsValid();
    LeapDaySelected(f, Date(2104, 2, 29));
    NoneInRange(f);
    FirstIsOccurrence(f, BackInSight(), DayNumber(Date(2099, 3, 1)) * 1440, m);
  }

  lemma LeapDayIsValid()
    ensures Valid(Date(2104, 2, 29))
  {
  }

  lemma NoneInRange(f: Fields)
    requires OnLeapDays(f)
    ensures NoMatch(f, DayNumber(Date(2099, 3, 1)) * 1440, DayNumber(Date(2104, 2, 29)) * 1440)
  {
    hide Matches, DayNumber, OnLeapDays;
    forall k | DayNumber(Date(2099, 3, 1)) * 1440 <= k < DayNumber(Date(2104, 2, 29)) * 1440 ensures !Matches(f, k) {
      NoneBetween(f, k);
    }
  }

  lemma FirstIsOccurrence(f: Fields, after: int, lo: int, m: int)
    requires StartMinute(after, 0) == lo <= m < EndDay(after, 0) * 1440 && Matches(f, m) && NoMatch(f, lo, m)
    ensures Occurrence(f, after, 0) == Some(m * MINUTE)
  {
    hide Matches, StartMinute, EndDay;
    OccurrenceMeaning(f, after, 0);
    assert IsFirst(f, after, 0, m);
  }

  lemma WindowBackInSight()
    ensures var (after, m) := (BackInSight(), DayNumber(Date(2104, 2, 29)) * 1440);
      DayNumber(Date(2099, 3, 1)) * 1440 == StartMinute(after, 0) <= m < EndDay(after, 0) * 1440
  {
    var first, leapDay, end := Date(2099, 3, 1), Date(2104, 2, 29), Date(2104, 3, 1);
    assert AddYears(first, 5) == end && Before(first, leapDay) && Before(leapDay, end);
    hide DayNumber, EndDay, StartMinute, AddYears, MinuteBefore;
    WindowFromMidnight(first);
    DayNumberOrder(first, leapDay);
    DayNumberOrder(leapDay, end);
  }

  /** The window that a search begins at the midnight opening `date`. */
  lemma WindowFromMidnight(date: Date)
    requires Valid(date)
    ensures StartMinute(MinuteBefore(date), 0) == DayNumber(date) * 1440
    ensures DayNumber(AddYears(date, 5)) <= EndDay(MinuteBefore(date), 0)
  {
    StartsOn(date);
    StartMinuteValue(MinuteBefore(date), 0);
    hide DayNumber, EndDay, StartDate, AddYears;
    WindowBounds(MinuteBefore(date), 0);
  }

  lemma NoneBetween(f: Fields, k: int)
    requires OnLeapDays(f)
    requires DayNumber(Date(2099, 3, 1)) * 1440 <= k < DayNumber(Date(2104, 2, 29)) * 1440
    ensures !Matches(f, k)
  {
    hide DateOf, DayNumber;
    if Matches(f, k) {
      var date := DateOf(k / 1440);
      SelectedDate(f, date);
      hide Matches;
      DayNumberOrder(date, Date(2099, 3, 1));
      DayNumberOrder(Date(2104, 2, 29), date);
      NoLeapDayBetween(date);
    }
  }

  lemma SelectedDate(f: Fields, date: Date)
    requires OnLeapDays(f) && Valid(date) && DateMatches(f, date)
    ensures date.month == 2 && date.day == 29
  {
  }

  lemma NoLeapDayBetween(date: Date)
    requires Valid(date) && date.month == 2 && date.day == 29
    ensures Before(date, Date(2099, 3, 1)) || !Before(date, Date(2104, 2, 29))
  {
  }

  /** What the scheduler's clockwork says of the schedule, in UTC. */
  lemma LeapDayTimes(parseDuration: string -> Option<int>)
    ensures var next := CronClockwork(0, parseDuration);
      && next(SCHEDULE, LeapMidnight() - MINUTE) == Some(LeapMidnight())
      && forall now :: LeapMidnight() <= now < BackInSight() ==> next(SCHEDULE, now) == None
    ensures CronClockwork(0, parseDuration)(SCHEDULE, BackInSight()) == Some(DayNumber(Date(2104, 2, 29)) * DAY)
  {
    ScheduleText();
    ScheduleParses();
    hide SCHEDULE, TrimSpace, ParseSpec, Expand, OnLeapDays, WellFormed, CronClockwork, LeapMidnight, BackInSight, DayNumber;
    TimesOnLeapDays(SCHEDULE, parseDuration);
  }

  lemma TimesOnLeapDays(schedule: string, parseDuration: string -> Option<int>)
    requires TrimSpace(schedule) == schedule && !("@every " <= schedule) && Expand(schedule) == schedule
    requires ParseSpec(schedule).Good?
    requires var f := AsFields(ParseSpec(schedule).fields); OnLeapDays(f) && WellFormed(f)
    ensures var next := CronClockwork(0, parseDuration);
      && next(schedule, LeapMidnight() - MINUTE) == Some(LeapMidnight())
      && forall now :: LeapMidnight() <= now < BackInSight() ==> next(schedule, now) == None
    ensures CronClockwork(0, parseDuration)(schedule, BackInSight()) == Some(DayNumber(Date(2104, 2, 29)) * DAY)
  {
    hide DayNumber, Occurrence, TrimSpace, ParseSpec, Expand, OnLeapDays, WellFormed, CronClockwork;
    var f, date := AsFields(ParseSpec(schedule).fields), Date(2096, 2, 29);
    FoundTheDayBefore(f, date);
    SpecTime(schedule, MinuteBefore(date), parseDuration);
    FoundBackInSight(f);
    SpecTime(schedule, BackInSight(), parseDuration);
    hide LeapMidnight, MinuteBefore, BackInSight;
    forall now | LeapMidnight() <= now < BackInSight()
      ensures CronClockwork(0, parseDuration)(schedule, now) == None
    {
      NotFoundAfter(f, now);
      SpecTime(schedule, now, parseDuration);
    }
  }

  lemma SpecTime(schedule: string, now: int, parseDuration: string -> Option<int>)
    requires TrimSpace(schedule) == schedule && !("@every " <= schedule) && Expand(schedule) == schedule
    requires ParseSpec(schedule).Good?
    ensures CronClockwork(0, parseDuration)(schedule, now) == Occurrence(AsFields(ParseSpec(schedule).fields), now, 0)
  {
    hide TrimSpace, ParseSpec, Expand, Occurrence;
  }

  // ---------- a run ----------

  /** A run so far: its loop is prompt, and `last` is its last state. */
  ghost predicate Reaches(states: seq<State>, events: seq<Event>, c: Config, last: State) {
    IsRun(states, events, c) && states[|events|] == last &&
    forall k :: 0 <= k < |events| ==> Prompt(states[k], events[k])
  }

  ghost predicate Takes(s: State, e: Event, c: Config, after: State) {
    Enabled(s, e, c) && Prompt(s, e) && Apply(s, e, c) == after
  }

  /** One event more. */
  lemma Take(states: seq<State>, events: seq<Event>, c: Config, s: State, e: Event, after: State)
    returns (longer: seq<State>, more: seq<Event>)
    requires Reaches(states, events, c, s) && Takes(s, e, c, after)
    ensures Reaches(longer, more, c, after)
    ensures longer == states + [after] && more == events + [e] && |states| == |events| + 1 && states[|events|] == s
  {
    hide Enabled, Apply, Prompt;
    longer, more := states + [after], events + [e];
  }

  /** The task is registered, the scheduler starts and finds nothing to catch up with. */
  lemma StartSteps(s: State, c: Config, id: string, task: Task)
    requires Initial(s) && s.clock < task.nextRun
    ensures Takes(s, Register(id, task), c, s.(tasks := map[id := task]))
    ensures var s1 := s.(tasks := map[id := task]);
      var s2 := s1.(loop := CatchingUp, wait := 1);
      var s3 := s2.(loop := Launching([], true), lastCheck := s.clock);
      Takes(s1, Start, c, s2) && Takes(s2, CatchUp([]), c, s3) && Takes(s3, LaunchNext, c, s3.(loop := Checking))
  {
    assert TickAll(map[id := task], s.clock, c.next) == map[id := task];
  }

  /** Nothing is due yet: the loop sleeps for the minute until something is. */
  lemma WaitSteps(s: State, c: Config, id: string, task: Task)
    requires s.loop == Checking && s.tasks == map[id := task] && task.enabled && task.nextRun == s.clock + MINUTE
    ensures var s1 := s.(loop := Launching([], false), lastCheck := s.clock);
      var s2 := s1.(loop := Delaying);
      Takes(s, Check([]), c, s1) && Takes(s1, LaunchNext, c, s2) &&
      Takes(s2, SetTimer(MINUTE), c, s2.(loop := Sleeping(task.nextRun)))
    ensures var s3 := s.(loop := Sleeping(task.nextRun), lastCheck := s.clock);
      var s4 := s3.(clock := task.nextRun);
      Takes(s3, Pass(MINUTE), c, s4) && Takes(s4, Wake, c, s4.(loop := Checking))
  {
    assert TickAll(s.tasks, s.clock, c.next) == s.tasks;
    assert s.log + [] == s.log;
  }

  /** A run that registers the task a minute ahead and looks at it when it falls due. */
  lemma UntilDue(c: Config, id: string, task: Task) returns (states: seq<State>, events: seq<Event>, s: State)
    requires task.enabled && task.nextRun > MINUTE
    ensures Reaches(states, events, c, s) && |states| == |events| + 1 > 1
    ensures Initial(states[0]) && states[0].clock == task.nextRun - MINUTE && events[0] == Register(id, task)
    ensures s.loop == Checking && s.clock == task.nextRun && s.tasks == map[id := task] && s.runs == map[] && s.nextId == 0
  {
    var s0 := State(task.nextRun - MINUTE, map[], false, 0, Off, 0, map[], 0, [], []);
    states, events := [s0], [];
    assert Reaches(states, events, c, s0);
    StartSteps(s0, c, id, task);
    var s1 := s0.(tasks := map[id := task]);
    var s2 := s1.(loop := CatchingUp, wait := 1);
    var s3 := s2.(loop := Launching([], true), lastCheck := s0.clock);
    var s4 := s3.(loop := Checking);
    WaitSteps(s4, c, id, task);
    hide Reaches, Takes;
    states, events := Take(states, events, c, s0, Register(id, task), s1);
    states, events := Take(states, events, c, s1, Start, s2);
    states, events := Take(states, events, c, s2, CatchUp([]), s3);
    states, events := Take(states, events, c, s3, LaunchNext, s4);
    var s5 := s4.(loop := Launching([], false), lastCheck := s4.clock);
    var s6 := s5.(loop := Delaying);
    states, events := Take(states, events, c, s4, Check([]), s5);
    states, events := Take(states, events, c, s5, LaunchNext, s6);
    var s7 := s6.(loop := Sleeping(task.nextRun));
    states, events := Take(states, events, c, s6, SetTimer(MINUTE), s7);
    var s8 := s7.(clock := task.nextRun);
    states, events := Take(states, events, c, s7, Pass(MINUTE), s8);
    s := s8.(loop := Checking);
    states, events := Take(states, events, c, s8, Wake, s);
  }

  /** Without a next time a check hands the task out and leaves its deadline. */
  lemma HandOutSteps(s: State, c: Config, id: string, task: Task)
    requires s.loop == Checking && s.tasks == map[id := task] && Due(task, s.clock)
    requires c.next(task.schedule, s.clock) == None
    ensures var log := s.log + [Dispatch(id, task.nextRun, s.clock, true)];
      Takes(s, Check([id]), c, s.(loop := Launching([id], false), log := log, lastCheck := s.clock))
  {
    assert TickAll(s.tasks, s.clock, c.next) == s.tasks;
    assert Dispatches([id], s.tasks, s.clock, true) == [Dispatch(id, task.nextRun, s.clock, true)];
  }

  /** It is launched, the run begins, and the loop sleeps for the second that is the least. */
  lemma LaunchSteps(s: State, c: Config, id: string, task: Task)
    requires s.loop == Launching([id], false) && s.tasks == map[id := task] && task.nextRun == s.clock && s.runs == map[]
    requires task.enabled && task.nextRun > 0
    ensures var s1 := s.(loop := Launching([], false), launched := s.launched + [id], wait := s.wait + 1,
                         nextId := s.nextId + 1, runs := map[s.nextId := Run(id, true, Spawned)]);
      var s2 := s1.(loop := Delaying);
      Takes(s, LaunchNext, c, s1) && Takes(s1, LaunchNext, c, s2) &&
      Takes(s2, SetTimer(SECOND), c, s2.(loop := Sleeping(s.clock + SECOND)))
  {
  }

  lemma SleepSteps(s: State, c: Config, id: string, n: nat)
    requires s.loop == Sleeping(s.clock + SECOND) && s.runs == map[n := Run(id, true, Spawned)]
    ensures var s1 := s.(runs := map[n := Run(id, true, Running(s.clock))]);
      var s2 := s1.(clock := s.clock + SECOND);
      Takes(s, Begin(n), c, s1) && Takes(s1, Pass(SECOND), c, s2) && Takes(s2, Wake, c, s2.(loop := Checking))
  {
  }

  /** The check hands it out, the run begins, and a second later the next check hands it out again. */
  lemma HandOutTwice(c: Config, id: string, task: Task, states: seq<State>, events: seq<Event>, s: State)
    returns (longer: seq<State>, more: seq<Event>, j: nat)
    requires Reaches(states, events, c, s) && |states| == |events| + 1
    requires s.loop == Checking && s.clock == task.nextRun && s.tasks == map[id := task] && s.runs == map[] && s.nextId == 0
    requires task.enabled && task.nextRun > 0
    requires c.next(task.schedule, s.clock) == None && c.next(task.schedule, s.clock + SECOND) == None
    ensures |longer| == |more| + 1 && Reaches(longer, more, c, longer[|more|])
    ensures states <= longer && events <= more
    ensures |events| < j < |more| && more[|events|] == more[j] == Check([id])
    ensures longer[j].tasks == longer[|events|].tasks == map[id := task]
  {
    var s1 := s.(loop := Launching([id], false), log := s.log + [Dispatch(id, task.nextRun, s.clock, true)],
                 lastCheck := s.clock);
    var s2 := s1.(loop := Launching([], false), launched := s.launched + [id], wait := s.wait + 1,
                  nextId := 1, runs := map[0 := Run(id, true, Spawned)]);
    var s3 := s2.(loop := Delaying);
    var s4 := s3.(loop := Sleeping(s.clock + SECOND));
    var s5 := s4.(runs := map[0 := Run(id, true, Running(s.clock))]);
    var s6 := s5.(clock := s.clock + SECOND);
    var s7 := s6.(loop := Checking);
    var s8 := s7.(loop := Launching([id], false), log := s7.log + [Dispatch(id, task.nextRun, s7.clock, true)],
                  lastCheck := s7.clock);
    hide Reaches, Takes;
    HandOutSteps(s, c, id, task);
    LaunchSteps(s1, c, id, task);
    SleepSteps(s4, c, id, 0);
    HandOutSteps(s7, c, id, task);
    longer, more := Take(states, events, c, s, Check([id]), s1);
    longer, more := Take(longer, more, c, s1, LaunchNext, s2);
    longer, more := Take(longer, more, c, s2, LaunchNext, s3);
    longer, more := Take(longer, more, c, s3, SetTimer(SECOND), s4);
    longer, more := Take(longer, more, c, s4, Begin(0), s5);
    longer, more := Take(longer, more, c, s5, Pass(SECOND), s6);
    longer, more := Take(longer, more, c, s6, Wake, s7);
    j := |more|;
    longer, more := Take(longer, more, c, s7, Check([id]), s8);
  }

  /** A leap-day task registered the minute before: registration accepts it as it is, and the deadline
      of 29 February 2096 is handed out twice, a second apart, by a prompt loop. */
  lemma LeapDayHandedOutTwice(id: string, parseDuration: string -> Option<int>, window: int)
    returns (states: seq<State>, events: seq<Event>, i: nat, j: nat)
    ensures var c := Config(CronClockwork(0, parseDuration), window);
      var task := Scheduler.Registered(Task(SCHEDULE, true, 0, 0, Never, 0, 0), LeapMidnight() - MINUTE, c.next);
      && task.schedule == SCHEDULE && task.nextRun == LeapMidnight()
      && IsRun(states, events, c) && Initial(states[0]) && states[0].clock == LeapMidnight() - MINUTE
      && (forall k :: 0 <= k < |events| ==> Prompt(states[k], events[k]))
      && 0 < i < j < |events| && events[0] == Register(id, task) && events[i] == events[j] == Check([id])
      && states[i].tasks == states[j].tasks == map[id := task]
  {
    var c := Config(CronClockwork(0, parseDuration), window);
    var task := Task(SCHEDULE, true, LeapMidnight(), 0, Never, 0, 0);
    StuckFromMidnight(parseDuration);
    hide LeapMidnight, CronClockwork, SCHEDULE, IsRun, Prompt, Initial, Scheduler.Registered;
    states, events, i, j := HandedOutTwice(c, id, task);
  }

  /** Registration accepts the task; from its deadline on there is no next time. */
  lemma StuckFromMidnight(parseDuration: string -> Option<int>)
    ensures var (next, due) := (CronClockwork(0, parseDuration), LeapMidnight());
      && MINUTE < due && next(SCHEDULE, due) == None && next(SCHEDULE, due + SECOND) == None
      && Scheduler.Registered(Task(SCHEDULE, true, 0, 0, Never, 0, 0), due - MINUTE, next) ==
           Task(SCHEDULE, true, due, 0, Never, 0, 0)
  {
    LeapMidnightEarly();
    LeapDayTimes(parseDuration);
    hide LeapMidnight, CronClockwork, DayNumber;
  }

  /** A task whose schedule has no next time at its deadline and a second later. */
  lemma HandedOutTwice(c: Config, id: string, task: Task)
    returns (states: seq<State>, events: seq<Event>, i: nat, j: nat)
    requires task.enabled && task.nextRun > MINUTE
    requires c.next(task.schedule, task.nextRun) == None && c.next(task.schedule, task.nextRun + SECOND) == None
    ensures IsRun(states, events, c) && Initial(states[0]) && states[0].clock == task.nextRun - MINUTE
    ensures forall k :: 0 <= k < |events| ==> Prompt(states[k], events[k])
    ensures 0 < i < j < |events| && events[0] == Register(id, task) && events[i] == events[j] == Check([id])
    ensures states[i].tasks == states[j].tasks == map[id := task]
  {
    hide IsRun, Prompt, Initial;
    var s: State;
    states, events, s := UntilDue(c, id, task);
    i := |events|;
    states, events, j := HandOutTwice(c, id, task, states, events, s);
  }

  lemma LeapMidnightEarly()
    ensures MINUTE < LeapMidnight() < BackInSight() - DAY
  {
    DayNumberOrder(Date(2096, 2, 29), Date(2099, 2, 27));
    NextDayNumber(Date(2099, 2, 27));
    NextDayNumber(Date(2099, 2, 28));
    DayNumberOrder(Date(2, 1, 1), Date(2096, 2, 29));
    assert DayNumber(Date(2, 1, 1)) == 365;
  }
}

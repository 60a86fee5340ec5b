/** The scheduler with the cron engine in it: what the step system assumes of schedules, and when
    the engine provides it. */
module SchedulerCron {
  import opened Durations
  import opened Text
  import opened CronSearch
  import opened CronSchedule
  import opened CronMeaning
  import opened CronLaws
  import opened SchedulerModel
  import opened SchedulerLaws
  import Scheduler

  /** `nextScheduledTime` in the scheduler's zone. */
  function CronClockwork(offset: int, parseDuration: string -> Option<int>): Clockwork {
    (schedule, now) =>
      match NextTime(schedule, now, offset, parseDuration) case At(t) => Some(t) case Error(_) => None
  }

  /** The engine never answers with an instant that is not in the future. */
  lemma CronIsLater(offset: int, parseDuration: string -> Option<int>)
    ensures Later(CronClockwork(offset, parseDuration))
  {
    hide NextTime;
    forall schedule, now
      ensures var r := NextTime(schedule, now, offset, parseDuration); r.At? ==> r.time > now
    {
      NextTimeLater(schedule, now, offset, parseDuration);
    }
  }

  /** Five-field schedules that leave the day to the weekday, or select a date that every year has,
      are total: the laws about watched deadlines apply to them in every zone. */
  lemma CronIsTotal(schedule: string, offset: int, parseDuration: string -> Option<int>)
    requires var text := TrimSpace(schedule); !("@every " <= text) && ParseSpec(Expand(text)).Good?
    requires NeverFails(AsFields(ParseSpec(Expand(TrimSpace(schedule))).fields))
    ensures Total(CronClockwork(offset, parseDuration), schedule)
  {
    hide NextTime, NeverFails, ParseSpec, Expand, TrimSpace;
    SpecAlwaysNext(schedule, parseDuration);
    assert AlwaysNext(schedule, offset, parseDuration);
  }

  /** So are intervals of positive length, and nothing else that starts like one. */
  lemma IntervalTotal(schedule: string, offset: int, parseDuration: string -> Option<int>)
    requires "@every " <= TrimSpace(schedule)
    ensures Total(CronClockwork(offset, parseDuration), schedule) <==>
      var duration := parseDuration(TrimSpace(TrimSpace(schedule)[7..])); duration.Some? && duration.value > 0
  {
    hide TrimSpace;
    var clockwork := CronClockwork(offset, parseDuration);
    if Total(clockwork, schedule) {
      assert clockwork(schedule, 0).Some?;
    }
  }

  /** Whatever is registered, it leaves registration with a deadline, and with a schedule that has
      a next time: an unusable schedule is replaced by the hourly one, which cannot fail. */
  lemma RegistrationSucceeds(t: Task, now: int, offset: int, parseDuration: string -> Option<int>)
    requires now > 0
    ensures var clockwork := CronClockwork(offset, parseDuration);
      var t' := Scheduler.Registered(t, now, clockwork);
      && clockwork(t'.schedule, now).Some? && t'.nextRun != 0
      && t'.schedule == (if t.schedule != "" && clockwork(t.schedule, now).Some? then t.schedule else "@hourly")
      && t'.nextRun == (if t.nextRun != 0 then t.nextRun else clockwork(t'.schedule, now).value)
      && t' == t.(schedule := t'.schedule, nextRun := t'.nextRun)
  {
    hide NextTime;
    PresetsNeverFail("@hourly", now, offset, parseDuration);
    CronIsLater(offset, parseDuration);
  }

  // ---------- no occurrence is skipped or added ----------

  /** The schedule is a five-field one, or a preset, with these fields. */
  predicate HasFields(schedule: string, f: Fields) {
    var text := TrimSpace(schedule);
    !("@every " <= text) && ParseSpec(Expand(text)).Good? && f == AsFields(ParseSpec(Expand(text)).fields)
  }

  /** No selected minute begins between the two instants. */
  ghost predicate NoneBetween(f: Fields, offset: int, from: int, to: int) {
    forall m :: Matches(f, m) ==> !(from < m * MINUTE - offset < to)
  }

  /** A selected minute begins at the instant. */
  predicate IsOccurrence(f: Fields, offset: int, t: int) {
    (t + offset) % MINUTE == 0 && Matches(f, (t + offset) / MINUTE)
  }

  /** In a zone of whole minutes the next time is the very next occurrence. */
  lemma NextIsOccurrence(schedule: string, f: Fields, now: int, offset: int, parseDuration: string -> Option<int>)
    requires HasFields(schedule, f) && offset % MINUTE == 0
    ensures var r := CronClockwork(offset, parseDuration)(schedule, now);
      r.Some? ==> r.value > now && IsOccurrence(f, offset, r.value) && NoneBetween(f, offset, now, r.value)
  {
    hide TrimSpace, ParseSpec, Expand, Occurrence, Matches;
    if Occurrence(f, now, offset).Some? {
      OccurrenceEarliest(f, now, offset);
      var t := Occurrence(f, now, offset).value;
      forall m | Matches(f, m) ensures !(now < m * MINUTE - offset < t) {
        if m * MINUTE - offset < t {
          MinutesApart(m, t, offset);
          assert !MinuteAfter(m, now, offset);
        }
      }
    }
  }

  lemma MinutesApart(m: int, t: int, offset: int)
    requires m * MINUTE - offset < t && (t + offset) % MINUTE == 0
    ensures m < (t + offset) / MINUTE && m * MINUTE - offset <= t - MINUTE
  {
  }

  /** A check that hands a task out leaves the very next occurrence as its deadline; for an interval, the
      instant of the check and the interval. The catch-up does the same. */
  lemma HandedOutThenNext(s: State, e: Event, c: Config, id: string, f: Fields, offset: int, parseDuration: string -> Option<int>)
    requires c.next == CronClockwork(offset, parseDuration) && offset % MINUTE == 0
    requires Enabled(s, e, c) && (e.Check? || e.CatchUp?) && id in s.tasks && id in e.due
    ensures id in Apply(s, e, c).tasks
    ensures var (t, d) := (s.tasks[id], Apply(s, e, c).tasks[id].nextRun);
      && (HasFields(t.schedule, f) && c.next(t.schedule, s.clock).Some? ==>
            d > s.clock && IsOccurrence(f, offset, d) && NoneBetween(f, offset, s.clock, d))
      && (forall w: string :: t.schedule == "@every " + w && IsTrimmed(w) && parseDuration(w).Some? && parseDuration(w).value > 0 ==>
            d == s.clock + parseDuration(w).value)
  {
    hide HasFields, CronClockwork, IsOccurrence, NoneBetween, IsTrimmed;
    var t := s.tasks[id];
    if e.Check? { CheckMoves(s, e.due, c, id); } else { CatchUpMoves(s, e.due, c, id); }
    hide Apply, Enabled;
    if HasFields(t.schedule, f) { NextIsOccurrence(t.schedule, f, s.clock, offset, parseDuration); }
    forall w: string | t.schedule == "@every " + w && IsTrimmed(w) && parseDuration(w).Some? && parseDuration(w).value > 0
      ensures c.next(t.schedule, s.clock) == Some(s.clock + parseDuration(w).value)
    {
      IntervalNext(w, s.clock, offset, parseDuration);
    }
  }

  predicate IsTrimmed(w: string) { w != [] && !IsSpace(w[0]) && !IsSpace(w[|w| - 1]) }

  lemma IntervalNext(w: string, now: int, offset: int, parseDuration: string -> Option<int>)
    requires IsTrimmed(w) && parseDuration(w).Some? && parseDuration(w).value > 0
    ensures CronClockwork(offset, parseDuration)("@every " + w, now) == Some(now + parseDuration(w).value)
  {
    hide NextTime;
    IntervalTime(w, now, offset, parseDuration);
  }

  /** What a step does to the deadline of a watched task with a schedule of five fields. */
  lemma StepOccurrence(s: State, e: Event, c: Config, id: string, f: Fields, offset: int, parseDuration: string -> Option<int>)
    requires c.next == CronClockwork(offset, parseDuration) && offset % MINUTE == 0
    requires Enabled(s, e, c) && RunsValid(s) && Watched(s, id)
    requires HasFields(s.tasks[id].schedule, f) && c.next(s.tasks[id].schedule, s.clock).Some?
    ensures id in Apply(s, e, c).tasks
    ensures var (d, d') := (s.tasks[id].nextRun, Apply(s, e, c).tasks[id].nextRun);
      && (d' != d && e.Check? ==> id in e.due && s.clock < d + SECOND)
      && (d' != d && !e.Check? ==> e.Finish? && e.run in s.runs && s.runs[e.run].id == id)
      && (d' != d ==> IsOccurrence(f, offset, d') && NoneBetween(f, offset, s.clock, d'))
  {
    hide HasFields, CronClockwork, IsOccurrence, NoneBetween;
    CronIsLater(offset, parseDuration);
    ChangeOfDeadline(s, e, c, id);
    var t := s.tasks[id];
    NextIsOccurrence(t.schedule, f, s.clock, offset, parseDuration);
    if Apply(s, e, c).tasks[id].nextRun != t.nextRun {
      if e.Check? {
        CheckMoves(s, e.due, c, id);
        assert s.loop.Checking?;
        WatchedInTime(s, id);
      } else {
        FinishWrites(s, e.run, e.ok, c);
      }
    }
  }

  /** A run with a prompt loop and the cron engine in a zone of whole minutes, in which task `id` stays
      enabled and is watched from the start; its schedule has these five fields and never fails, and its
      first deadline is a whole minute. */
  ghost predicate Tracks(states: seq<State>, events: seq<Event>, c: Config, id: string, f: Fields,
                         offset: int, parseDuration: string -> Option<int>) {
    && c.next == CronClockwork(offset, parseDuration) && offset % MINUTE == 0
    && StaysEnabled(states, events, c, id) && Inv(states[0], c)
    && Watched(states[0], id) && Total(c.next, states[0].tasks[id].schedule)
    && HasFields(states[0].tasks[id].schedule, f) && (states[0].tasks[id].nextRun + offset) % MINUTE == 0
  }

  function DeadlineAt(s: State, id: string): int { if id in s.tasks then s.tasks[id].nextRun else 0 }

  lemma TracksLength(states: seq<State>, events: seq<Event>, c: Config, id: string, f: Fields,
                     offset: int, parseDuration: string -> Option<int>)
    requires Tracks(states, events, c, id, f, offset, parseDuration)
    ensures |states| == |events| + 1 && (DeadlineAt(states[0], id) + offset) % MINUTE == 0
    ensures offset % MINUTE == 0 && c.next == CronClockwork(offset, parseDuration)
  {
    hide Inv, HasFields, CronClockwork, Watched, Total, Prompt, Enabled, Apply;
  }

  lemma TracksStep(states: seq<State>, events: seq<Event>, c: Config, id: string, f: Fields,
                   offset: int, parseDuration: string -> Option<int>, n: nat)
    requires Tracks(states, events, c, id, f, offset, parseDuration) && n < |events| < |states|
    ensures var (s, e) := (states[n], events[n]);
      && Enabled(s, e, c) && states[n + 1] == Apply(s, e, c) && RunsValid(s) && Watched(s, id) && id in s.tasks
      && HasFields(s.tasks[id].schedule, f) && c.next(s.tasks[id].schedule, s.clock).Some?
  {
    CronIsLater(offset, parseDuration);
    hide Inv, Watched, HasFields, CronClockwork;
    RunWatches(states, events, c, id, n);
  }

  /** One step of such a run. */
  lemma TrackedChange(states: seq<State>, events: seq<Event>, c: Config, id: string, f: Fields,
                      offset: int, parseDuration: string -> Option<int>, n: nat)
    requires Tracks(states, events, c, id, f, offset, parseDuration) && n < |events| < |states|
    ensures var (s, e, d, d') := (states[n], events[n], DeadlineAt(states[n], id), DeadlineAt(states[n + 1], id));
      && (d' != d && e.Check? ==> id in e.due && s.clock < d + SECOND)
      && (d' != d && !e.Check? ==> e.Finish? && e.run in s.runs && s.runs[e.run].id == id)
      && (d' != d ==> IsOccurrence(f, offset, d') && NoneBetween(f, offset, s.clock, d'))
  {
    hide Tracks, Watched, HasFields, CronClockwork, Apply, RunsValid, IsOccurrence, NoneBetween, Total, Enabled;
    TracksLength(states, events, c, id, f, offset, parseDuration);
    TracksStep(states, events, c, id, f, offset, parseDuration, n);
    StepOccurrence(states[n], events[n], c, id, f, offset, parseDuration);
  }

  /** The deadline always is a whole minute. */
  lemma {:induction false} DeadlineOnMinute(states: seq<State>, events: seq<Event>, c: Config, id: string, f: Fields,
                                            offset: int, parseDuration: string -> Option<int>, n: nat)
    requires Tracks(states, events, c, id, f, offset, parseDuration) && n < |states| == |events| + 1
    ensures (DeadlineAt(states[n], id) + offset) % MINUTE == 0
  {
    hide Tracks, DeadlineAt, NoneBetween, Matches;
    if n == 0 {
      TracksLength(states, events, c, id, f, offset, parseDuration);
    } else {
      DeadlineOnMinute(states, events, c, id, f, offset, parseDuration, n - 1);
      TrackedChange(states, events, c, id, f, offset, parseDuration, n - 1);
    }
  }

  /** No occurrence is skipped or added, over a whole run: a check that hands out the deadline `d` leaves
      the next occurrence after `d`, and a run that absorbs a deadline leaves the next one after its end. */
  lemma EveryOccurrence(states: seq<State>, events: seq<Event>, c: Config, id: string, f: Fields,
                        offset: int, parseDuration: string -> Option<int>, n: nat)
    requires Tracks(states, events, c, id, f, offset, parseDuration) && n < |events| < |states|
    ensures var (s, e, d, d') := (states[n], events[n], DeadlineAt(states[n], id), DeadlineAt(states[n + 1], id));
      d' != d ==>
        IsOccurrence(f, offset, d') &&
        if e.Check? then id in e.due && NoneBetween(f, offset, d, d')
        else e.Finish? && e.run in s.runs && s.runs[e.run].id == id && NoneBetween(f, offset, s.clock, d')
  {
    hide Tracks, DeadlineAt, IsOccurrence, NoneBetween, CronClockwork;
    TracksLength(states, events, c, id, f, offset, parseDuration);
    DeadlineOnMinute(states, events, c, id, f, offset, parseDuration, n);
    TrackedChange(states, events, c, id, f, offset, parseDuration, n);
    WidenGap(f, offset, DeadlineAt(states[n], id), states[n].clock, DeadlineAt(states[n + 1], id));
  }

  /** Less than a second after a whole minute no minute has begun since. */
  lemma WidenGap(f: Fields, offset: int, d: int, now: int, to: int)
    requires (d + offset) % MINUTE == 0
    ensures now < d + SECOND && NoneBetween(f, offset, now, to) ==> NoneBetween(f, offset, d, to)
  {
    hide Matches;
    if now < d + SECOND && NoneBetween(f, offset, now, to) {
      forall m | Matches(f, m) ensures !(d < m * MINUTE - offset < to) {
        if d < m * MINUTE - offset { AfterWholeMinute(m, d, offset); }
      }
    }
  }

  lemma AfterWholeMinute(m: int, d: int, offset: int)
    requires d < m * MINUTE - offset && (d + offset) % MINUTE == 0
    ensures m * MINUTE - offset >= d + MINUTE
  {
  }
}

# A verified model of the caswhois server's engines

This Dafny project models the parts of the caswhois server that decide things on their own: the cron
engine and the task scheduler, backup retention and restoration, the rate limiter, the TTL cache with
the read-through WHOIS lookup on top of it, the translations with their build-time validator, and the
line editor that sets the update channel. `dafny verify dfyconfig.toml` checks all of it.

Code that changes things step by step is written as methods, on a class where the source has an object
and on an array where it sorts in place. Each such method is proved against a specification function,
and the laws are proved about that function, over every input or every run.

## How the model is laid out

- `Durations.dfy`, `Int64.dfy`, `Text.dfy`, `Calendar.dfy`: lengths of time, 64-bit wrap-around, the string
  routines and the civil calendar that the rest relies on.
- `CronField.dfy`, `CronNames.dfy`, `CronSearch.dfy`, `CronLaws.dfy`, `CronSchedule.dfy`, `CronMeaning.dfy`:
  one field, names in fields, the search for the next time, its laws, the schedule text as a whole, and
  what schedule texts mean by the clock and the calendar.
- `SchedulerModel.dfy`, `SchedulerLaws.dfy`, `Scheduler.dfy`, `SchedulerCron.dfy`, `LeapDay.dfy`,
  `Retry.dfy`: the scheduler as a step system, what holds in every interleaving, the objects and their
  methods, the cron engine put into it, a schedule that runs out of next times, and the attempts of one
  run.
- `Retention.dfy`, `SizeCap.dfy`, `Archive.dfy`, `Restore.dfy`: which backups stay, the cap on their size, and the round
  trip from the live files through an archive and back.
- `RateLimit.dfy`; `Cache.dfy`, `Whois.dfy`, `WhoisRuns.dfy`; `I18n.dfy`, `I18nValidate.dfy`;
  `UpdateChannel.dfy`.

Instants and durations are integers in nanoseconds. An instant counts from the zero time of Go's `time`
package, so an unset time is 0. A method that reads the clock takes the instant as a parameter.

## What does not hold

Some things the code or its comments suggest are false. Each is proved false by a witness, next to the
exact condition under which it holds.

- A field step close to 2^63 overflows: the stepping loop wraps around and records values nobody asked
  for, so `10/9223372036854775807` selects minute 8 (`CronField.OverflowSelectsStrayMinute`). The recorded
  set is the one asked for if and only if no item's stepping leaves the 64-bit range
  (`CronField.FieldSelection`). Within the field's range, which is all that is ever looked up, one item is
  read as meant if and only if its start minus twice the distance from the step to 2^63 lies below the
  range (`CronField.StraysExist`), and a field if and only if every such stray value is asked for anyway
  (`CronField.FieldInRange`).
- The search truncates the absolute time to a minute, not the local time. In a zone with stray seconds
  it can skip the first minute after the given instant, and `* * * * *` then answers with the second one
  (`CronSchedule.LostOccurrence`); `CronLaws.OccurrenceEarliest` says exactly when an occurrence is lost.
- "No deadline is handed out twice" fails for a schedule that registers and runs out of next times later.
  A check then leaves the deadline as it is, and further checks hand it out again until a run of the task
  that started at or after it ends; that end moves it an hour on (`SchedulerLaws.StuckRenewed`). With
  a handler that returns at once, the task is handed out once and then hourly. A later check hands
  out the same deadline if and only if no look in between found a next time and no such run has ended
  (`SchedulerLaws.HandedOutAgain`, from `SchedulerLaws.DeadlineStands`). `0 0 29 2 *`, registered on 28
  February 2096, is such a schedule (`LeapDay.LeapDayTimes`), and `LeapDay.LeapDayHandedOutTwice` gives the
  run. For schedules that always have a next time it never happens (`SchedulerLaws.EveryInterleaving`);
  `CronLaws.NeverFailsMeaning` says which five-field schedules those are.
- Exponential waits double only as long as they fit in 63 bits (`Retry.DelayExact`); from the sixty-fourth
  retry on there is no wait at all (`Retry.OverflowedDelay`).
- The limiter's comment speaks of a sliding window. An interval of one duration can hold 2L - 1 allowed
  requests, and never more (`RateLimit.TwoWindowBound`, `RateLimit.TwoWindowBoundMet`). At most L it holds,
  always, if and only if L is 1 or the duration is one nanosecond (`RateLimit.SlidesExactlyWhen`).
- A cache cleanup can change a later lookup: it can turn the eviction of an expired entry into the
  eviction of a live one (`Cache.CleanupCostsLiveEntry`). After a cleanup that dropped something, the next
  `Set` makes no difference if and only if the cleaned cache has room, or still an expired entry, or
  nothing that expires first except under the empty key or the key written
  (`Cache.CleanupBeforeSet`; `Cache.SetKeepsAlike` for any two caches that lookups cannot tell apart).
  Over a whole run, cleanups anywhere change no lookup as long as every `Set` meets that condition
  (`Cache.CleanupsUnseen`).
- The validator accepts files whose texts the translator never returns: with a value that is not a string
  (`I18nValidate.NumberFallsBack`), with a dot in a name (`I18nValidate.DottedNameFallsBack`), or with an
  empty name (`I18nValidate.EmptyNameFallsBack`). After acceptance the translator answers a key with the
  validated text if and only if that is the text its own lookup finds, or, where that finds none, the
  fallback (`I18nValidate.AcceptedAnswers`). In a file without dotted and empty names that is so if
  and only if the value is a string or the fallback happens to be the same text
  (`I18nValidate.ProperAnswers`).

## Model

| member | source | states |
|---|---|---|
| Calendar.DateOf | src/scheduler/cron.go:56-57 | Every day number is the number of a valid civil date, Gregorian leap years included |
| Calendar.DayNumberOrder | src/scheduler/cron.go:56-56 | Day numbers follow the calendar order of dates, so no two dates share one |
| Calendar.NextDayNumber | src/scheduler/cron.go:56-56 | Adding a day to a valid date gives the valid date with the next number, across month and year ends |
| Calendar.WeekdayAdvances | src/scheduler/cron.go:109-110 | Weekdays follow each other from day to day, across all month and year ends |
| Calendar.GregorianCycle | src/scheduler/cron.go:109-110 | Four hundred years are 146097 days, a whole number of weeks |
| Calendar.Anchors | src/scheduler/cron.go:109-110 | Known dates: Go's zero time is day 0, the Unix epoch day 719162, 1 January 2000 a Saturday |
| Calendar.CenturyAnchors | src/scheduler/cron.go:56-56 | 1900 and 2100 have no 29 February, 2000 and 2024 have one, at known day numbers |
| CronField.RenderedItem | src/scheduler/cron.go:122-162 | A written item (star, number, range, each with an optional step) reads back as what its form means, or is refused as out of range |
| CronField.ReadItem | src/scheduler/cron.go:122-162 | The checks of the loop body on one item, in their order, with their errors |
| CronField.FillValues | src/scheduler/cron.go:163-165 | The stepping loop terminates in 64-bit arithmetic and records exactly the wrapped steps |
| CronField.ParseCronField | src/scheduler/cron.go:120-174 | The loop over the items gives what the field is specified to be, or the first error |
| CronField.SteppedExact | src/scheduler/cron.go:163-165 | The loop records lo, lo+step, ... up to hi exactly when no step leaves the 64-bit range, and a negative number otherwise |
| CronField.FieldSelection | src/scheduler/cron.go:120-174 | An accepted field records the union of its items' progressions, plus 0 when weekday 7 is asked for, if and only if no step overflows; some value in range is selected either way |
| CronField.SteppedStrays | src/scheduler/cron.go:163-165 | Of the values not below zero the loop records the progression and the stray values, which lie below the start by multiples of twice the step's distance from 2^63 |
| CronField.StraysExist | src/scheduler/cron.go:163-165 | Within the range an item is read as meant if and only if its first stray value lies below the range |
| CronField.FieldInRange | src/scheduler/cron.go:120-174 | Within its range an accepted field selects what its items ask for and their stray values; it is exactly what was asked for if and only if every stray value is asked for anyway |
| CronField.FieldNeverEmpty | src/scheduler/cron.go:160-172 | The check for an empty selection never fires; without overflow every selected value is in range |
| CronField.OverflowSelectsStrayMinute | src/scheduler/cron.go:163-165 | A field text for which the code selects a minute that no item asks for |
| CronNames.RewriteBounds | src/scheduler/cron.go:95-100 | The inner loop replaces exactly the bounds that are names |
| CronNames.RewriteItems | src/scheduler/cron.go:92-104 | The outer loop rewrites every item in place |
| CronNames.NormalizeCronField | src/scheduler/cron.go:78-105 | The method gives the normalised text; fields other than month and weekday are untouched |
| CronNames.NormalizeIdempotent | src/scheduler/cron.go:78-105 | Normalising a normalised text changes nothing, for every text |
| CronNames.NameFreeSameParse | src/scheduler/cron.go:47-47 | A field without names parses the same with and without normalising |
| CronNames.NamesRead | src/scheduler/cron.go:81-103 | A month or weekday name in any case, alone or at either end of a range, becomes its number |
| CronSearch.SearchDay | src/scheduler/cron.go:57-73 | On one day the loops find the first selected minute not before the start, or there is none |
| CronSearch.SearchDays | src/scheduler/cron.go:56-75 | The day loop finds the first match of the window, or the window has none |
| CronSearch.NextOccurrence | src/scheduler/cron.go:53-75 | The nested search equals a plain minute-by-minute scan of the same window |
| CronSearch.OccurrenceMeaning | src/scheduler/cron.go:53-75 | The answer is the first matching minute of the window; the error means no minute of it matches |
| CronLaws.SearchStart | src/scheduler/cron.go:53-53 | The search starts at the first whole local minute after the instant, or one later exactly when the zone's seconds skip one |
| CronSchedule.LostOccurrence | src/scheduler/cron.go:53-53 | A parsed schedule, an instant and a zone for which the answer is not the earliest match |
| CronLaws.OccurrenceEarliest | src/scheduler/cron.go:53-75 | The time returned is a whole minute strictly later that matches; it is the earliest one if and only if no match falls into a skipped minute |
| CronLaws.WindowBounds | src/scheduler/cron.go:56-56 | The search runs from the start date to the same date five years on |
| CronLaws.SearchedYears | src/scheduler/cron.go:56-56 | The first day not searched, by its date: five years after the start, or the day after that unless the start is at midnight |
| CronLaws.DayOfMonthRule | src/scheduler/cron.go:114-116 | With a star for the weekday a minute is selected by minute, hour, month and day of the month alone |
| CronLaws.WeekdayRule | src/scheduler/cron.go:109-113 | With a wildcard day of the month it is selected by minute, hour, month and weekday alone, whatever the day values |
| CronLaws.EitherDayRule | src/scheduler/cron.go:117-117 | With both day fields restricted a minute is selected if and only if one of the two schedules with only one of them restricted selects it |
| CronLaws.EitherDayOccurrence | src/scheduler/cron.go:53-75 | So its next time is the earlier of the two schedules' next times |
| CronLaws.OccurrenceFails | src/scheduler/cron.go:56-75 | A well-formed schedule has no next time if and only if the day of the month alone decides and every selected date never exists or is a 29 February not coming up |
| CronLaws.NeverFailsMeaning | src/scheduler/cron.go:107-118 | A schedule has a next time from every instant in every zone if and only if the weekday decides or some selected date exists every year |
| CronSchedule.ParseParts | src/scheduler/cron.go:44-52 | The five parts are normalised and parsed in order with their ranges; the first bad one is reported by number |
| CronSchedule.NextScheduledTime | src/scheduler/cron.go:16-76 | Intervals, presets and specs: the method gives the specified next time or error |
| CronSchedule.ParsedWellFormed | src/scheduler/cron.go:44-52 | Whatever parses has a usable value in every field |
| CronSchedule.NextTimeLater | src/scheduler/cron.go:16-76 | A next time is always strictly later than the instant asked about |
| CronSchedule.SpecAlwaysNext | src/scheduler/cron.go:16-76 | A schedule text that parses has a next time always and everywhere if and only if its fields never fail |
| CronSchedule.PresetsNeverFail | src/scheduler/cron.go:28-39 | Every preset parses and has a next time from every instant in every zone |
| CronMeaning.WrittenField | src/scheduler/cron.go:120-174 | A field written as one item is refused exactly when its bounds are out of range or order; else it selects what the item asks for, and 0 with weekday 7; only stars are wildcards |
| CronMeaning.RefusedItems | src/scheduler/cron.go:122-157 | Empty items, second slashes, bad steps, second dashes and bounds that are no numbers are refused, each with its error |
| CronMeaning.RefusedSpecs | src/scheduler/cron.go:40-52 | A spec that is not five words is refused; else the first field that cannot be read is named, counting from one, with its error |
| CronMeaning.MonthNumbers | src/scheduler/cron.go:81-84 | The names of the months and their numbers, 1 to 12 |
| CronMeaning.WeekdayNumbers | src/scheduler/cron.go:85-88 | The names of the weekdays and their numbers, 0 to 6 |
| CronMeaning.WrittenSpecFires | src/scheduler/cron.go:40-118 | A spec of five written items fires at the minutes, hours, months and days that its items ask for, in plain terms of the clock and the calendar |
| CronMeaning.PresetFires | src/scheduler/cron.go:28-39 | The presets fire on the hour, at midnight, on Sundays, on the first, on 1 January |
| CronMeaning.IntervalTime | src/scheduler/cron.go:21-27 | An interval's next time is the instant asked about and the duration; other durations are refused |
| CronMeaning.ThirteenthOrFriday | src/scheduler/cron.go:107-118 | `0 0 13 * 5` fires on Monday 13 January 2025 and on Friday the 17th |
| Scheduler.SchedulerObject.constructor | src/scheduler/scheduler.go:73-92 | A new scheduler has no tasks, is not started and waits for nothing |
| Scheduler.SchedulerObject.Register | src/scheduler/scheduler.go:96-127 | An empty identifier is refused; stored state replaces the given one, an unusable schedule becomes hourly, an unset deadline is set |
| Scheduler.SchedulerObject.AdvanceDeadline | src/scheduler/scheduler.go:562-567 | A task is due when enabled with a set deadline not in the future; then its deadline moves to the schedule's next time |
| Scheduler.SchedulerObject.CollectDue | src/scheduler/scheduler.go:557-573 | Under the lock every due deadline moves on, nothing else changes, and the due tasks are listed once each |
| Scheduler.SchedulerObject.CollectMissed | src/scheduler/scheduler.go:232-254 | The same for catch-up, listing only the tasks missed within the window |
| Scheduler.SchedulerObject.LaunchTask | src/scheduler/scheduler.go:579-596 | One run more, counted in the wait group exactly when the scheduler has started |
| Scheduler.SchedulerObject.LaunchAll | src/scheduler/scheduler.go:574-576 | Each listed task is launched once, in order, with its own object |
| Scheduler.SchedulerObject.CheckTasks | src/scheduler/scheduler.go:557-577 | Every due deadline becomes the schedule's next time, if there is one, before each due task is launched once |
| Scheduler.SchedulerObject.CatchUpMissedTasks | src/scheduler/scheduler.go:232-259 | Every due deadline becomes the schedule's next time; exactly the tasks missed within the window are launched |
| Scheduler.SchedulerObject.Start | src/scheduler/scheduler.go:207-229 | The loop is reserved in the wait group before catch-up; a second start changes nothing |
| Scheduler.SchedulerObject.FinishRun | src/scheduler/scheduler.go:303-326 | A run's end counts it, records it, and renews a deadline that its start has passed |
| Scheduler.SchedulerObject.SetEnabled | src/scheduler/scheduler.go:664-701 | Enabling or disabling changes one flag of one known task |
| Scheduler.SchedulerObject.NextDelay | src/scheduler/scheduler.go:615-632 | The sleep reaches to the first deadline of an enabled task, but is at least a second and at most a minute |
| SchedulerLaws.StepDeadlines | src/scheduler/scheduler.go:557-572 | Every step that writes a deadline strictly increases it, into the future |
| SchedulerLaws.StepInv | src/scheduler/scheduler.go:557-613 | Every step keeps the wait count, the launch order and the order of deadlines handed out |
| SchedulerLaws.EveryInterleaving | src/scheduler/scheduler.go:501-613 | In every interleaving no deadline of a schedule that always has a next time is handed out twice, each one handed out is launched once and in order, and the wait counter equals the live loop plus the tracked runs, so at zero neither is left |
| SchedulerLaws.RunDeadlines | src/scheduler/scheduler.go:318-320 | Over any stretch of a run a deadline only grows |
| SchedulerLaws.CatchUpExact | src/scheduler/scheduler.go:232-259 | Catch-up hands out a missed task once exactly when the miss is within the window, and leaves its deadline in the future either way |
| SchedulerLaws.DeadlineStands | src/scheduler/scheduler.go:303-326 | Over any stretch of a run a task's deadline stays if and only if no look at the task finds a next time and no run of it ends that started at or after the deadline |
| SchedulerLaws.HandedOutAgain | src/scheduler/scheduler.go:557-577 | A later check, the task being enabled, hands out a deadline again if and only if it has stood all the while |
| SchedulerLaws.StuckRenewed | src/scheduler/scheduler.go:318-320 | Without a next time the end of a run that started at or after the deadline moves it an hour on, and the task is not due before |
| LeapDay.LeapDayTimes | src/scheduler/cron.go:56-75 | The leap-day schedule has a next time the minute before 29 February 2096, none from then until a search starts in March 2099, and then 29 February 2104 |
| LeapDay.LeapDayHandedOutTwice | src/scheduler/scheduler.go:557-577 | A run of a prompt scheduler that registers that schedule unchanged and hands out one deadline twice |
| SchedulerLaws.CheckThenLaunches | src/scheduler/scheduler.go:557-577 | A check and its launches, step by step, advance every due deadline and then start one tracked run for each due task |
| SchedulerLaws.CheckMoves | src/scheduler/scheduler.go:557-573 | A check hands out the enabled tasks whose deadline is set and reached; that becomes the schedule's next time from the check on; nothing else of any task changes |
| SchedulerLaws.CatchUpMoves | src/scheduler/scheduler.go:232-254 | The catch-up moves the same deadlines and hands out those missed within the window |
| SchedulerLaws.FinishWrites | src/scheduler/scheduler.go:303-320 | A good end raises the run count, a bad one the failure count; a deadline that the start had reached becomes the next time, or an hour from the end |
| SchedulerLaws.OtherWrites | src/scheduler/scheduler.go:545-553 | Switching a task changes its flag; starting it by hand adds one run and changes no task |
| SchedulerLaws.DelayMeaning | src/scheduler/scheduler.go:615-632 | The delay is a minute, a second, or the time until the first deadline of an enabled task |
| SchedulerLaws.CountsCompletions | src/scheduler/scheduler.go:304-316 | A task's run count grows by exactly its runs that end well, its failure count by exactly those that fail |
| SchedulerLaws.CompletesOnce | src/scheduler/scheduler.go:590-595 | No run completes twice |
| SchedulerLaws.GuardsHold | src/scheduler/scheduler.go:574-596 | In every reachable state a pending launch and the end of a run find their task, so neither ever blocks |
| SchedulerLaws.CheckWatches | src/scheduler/scheduler.go:598-613 | Catch-up and every check put each enabled task under watch |
| SchedulerLaws.BoundedLateness | src/scheduler/scheduler.go:598-632 | With a prompt loop, a deadline of a task that stays enabled is never a second overdue: it is handed out within a second, or replaced at the end of a run of that task which started at or after it |
| SchedulerLaws.FirstDeadline | src/scheduler/scheduler.go:598-632 | A task registered or enabled at any moment of a run with a prompt loop is never more than a minute late, from its deadline or from that moment on, and is under watch from the first check on |
| SchedulerLaws.CheckSpacing | src/scheduler/scheduler.go:598-632 | In every interleaving two checks are at least a second apart, and a prompt loop's next check comes within a minute |
| SchedulerCron.CronIsLater | src/scheduler/cron.go:16-76 | The cron engine meets what the step system assumes of next times |
| SchedulerCron.NextIsOccurrence | src/scheduler/cron.go:53-75 | In a zone of whole minutes a next time is the very next minute that the schedule selects |
| SchedulerCron.HandedOutThenNext | src/scheduler/scheduler.go:557-573 | A check or catch-up that hands a task out leaves the very next occurrence as its deadline, or, for an interval, the instant and the interval |
| SchedulerCron.EveryOccurrence | src/scheduler/scheduler.go:557-573 | Over a run with a prompt loop no occurrence is skipped or added: each check that hands out a deadline leaves the next occurrence after it, each run that absorbs one the next after its end |
| SchedulerCron.CronIsTotal | src/scheduler/cron.go:16-76 | Five-field schedules that never fail are total, so the laws on deadlines apply to them |
| SchedulerCron.IntervalTotal | src/scheduler/cron.go:21-27 | An interval schedule is total if and only if its duration is positive |
| SchedulerCron.RegistrationSucceeds | src/scheduler/scheduler.go:109-120 | A schedule that is empty or has no next time becomes hourly, an unset deadline becomes the next time, nothing else changes; the result has a deadline and a schedule with a next time |
| Retry.ExecuteTask | src/scheduler/scheduler.go:263-299 | Between one and retries+1 calls, none after a success, one history row per call, the policy's waits in between, and the only ways to end |
| Retry.DelayExact | src/scheduler/scheduler.go:331-345 | The wait computed in 64 bits is the wait meant if and only if that fits in 63 bits |
| Retry.TotalWaitClosed | src/scheduler/scheduler.go:331-345 | The waits add up to base·k, base·k(k+1)/2 or base·(2^k - 1) |
| Retry.WaitsInNumbers | src/scheduler/scheduler.go:331-345 | The same in numbers: five minutes unless the policy names a positive delay; constant, growing by one of it, or doubling |
| Retry.OverflowedDelay | src/scheduler/scheduler.go:342-344 | The exponential delay overflows to no wait at all from the sixty-fourth retry on |
| RateLimit.Limiter.constructor | src/ratelimit/ratelimit.go:27-46 | Limits that are not positive are replaced by the defaults |
| RateLimit.Limiter.Allow | src/ratelimit/ratelimit.go:49-79 | The answer and the new windows are those of the specified decision |
| RateLimit.Limiter.CleanupExpired | src/ratelimit/ratelimit.go:107-117 | Exactly the windows older than two durations go, whatever the order |
| RateLimit.DecideMeaning | src/ratelimit/ratelimit.go:49-79 | When a request is allowed and what it leaves behind, window by window; other keys are not touched |
| RateLimit.CleanedMeaning | src/ratelimit/ratelimit.go:107-117 | A window is kept if and only if it opened at most two durations ago |
| RateLimit.TwoWindowBound | src/ratelimit/ratelimit.go:49-79 | Any half-open interval of one duration holds at most 2L - 1 allowed requests for a key |
| RateLimit.TwoWindowBoundMet | src/ratelimit/ratelimit.go:49-79 | For every limit that bound is reached |
| RateLimit.BoundHolds | src/ratelimit/ratelimit.go:49-79 | With windows of one nanosecond the bound is the limit itself, else 2L - 1 |
| RateLimit.BoundMet | src/ratelimit/ratelimit.go:49-79 | Some timed sequence reaches that bound for every limit and duration |
| RateLimit.SlidesExactlyWhen | src/ratelimit/ratelimit.go:49-79 | No interval of one duration ever exceeds the limit if and only if the limit is one request or the duration one nanosecond |
| RateLimit.DeniedOnlyWhenFull | src/ratelimit/ratelimit.go:64-78 | A request is denied if and only if its window is open and full, and changes nothing; no window exceeds the limit |
| RateLimit.CleanupChangesNoAnswer | src/ratelimit/ratelimit.go:107-117 | Two runs with the same requests and any cleanups in between answer every later request alike |
| Retention.ExchangeSort | src/backup/backup.go:722-729 | The hand-written sort in place gives a sorted permutation |
| Retention.MarkPass | src/backup/backup.go:733-775 | One marking loop marks, from the newest on, the first unmarked backups that qualify, up to the quota |
| Retention.DeleteUnmarked | src/backup/backup.go:777-784 | Exactly the unmarked backups are removed, in order, up to the first failure |
| Retention.ApplyRetention | src/backup/backup.go:722-784 | Sorting, four passes and deletion: the flags show the specified tiers of the sorted days |
| Retention.TiersByDate | src/backup/backup.go:733-775 | Yearly is 1 January, monthly the first of a month, weekly a Sunday, daily every day, by day numbers |
| Retention.TierByTier | src/backup/backup.go:731-775 | The four passes are one scan that gives each backup, from the newest on, the first tier still open to it |
| Retention.UnmarkedMeaning | src/backup/backup.go:777-784 | The paths deleted are those of the backups not marked; they and the survivors are all |
| Retention.RetentionGreedy | src/backup/backup.go:731-775 | A backup not kept qualifies only for tiers whose quota is filled by qualifying backups sorted before it; no tier exceeds its quota |
| Retention.RetentionBounds | src/backup/backup.go:731-775 | No more survive than the quotas add up to, and with a daily quota the newest one does |
| Retention.SurvivorsKeepTiers | src/backup/backup.go:731-775 | The passes on the survivors give each the tier it had |
| Retention.RetentionIdempotent | src/backup/backup.go:722-784 | Sorting and marking the survivors again keeps every one, however ties fall |
| Retention.SecondRunDeletesNothing | src/backup/backup.go:722-784 | A second run with the same quotas deletes no file |
| SizeCap.TotalOf | src/backup/backup.go:819-837 | The running total is the sum of the sizes |
| SizeCap.TotalMeaning | src/backup/backup.go:819-837 | Each file adds its size |
| SizeCap.RemoveOldest | src/backup/backup.go:852-860 | The loop removes the shortest prefix that meets the cap; the total is what is left |
| SizeCap.EnforceSizeCap | src/backup/backup.go:799-862 | The removed files are the shortest oldest-first prefix that meets the cap; a zero cap removes nothing |
| SizeCap.CapMet | src/backup/backup.go:852-860 | With sizes and a cap that are not negative, a prefix meets the cap if and only if it is at least that long, and no survivor is older than a removed file |
| Cache.MemoryCache.constructor | src/cache/memory.go:27-47 | A size limit that is not positive is replaced by the default |
| Cache.MemoryCache.Get | src/cache/memory.go:50-67 | A hit up to and including the expiry, counted as hit or miss |
| Cache.MemoryCache.Set | src/cache/memory.go:70-91 | At most one eviction, only when the entry would not fit, and then the write in any case |
| Cache.MemoryCache.Delete | src/cache/memory.go:94-100 | One key goes |
| Cache.MemoryCache.Clear | src/cache/memory.go:103-109 | Every key goes |
| Cache.MemoryCache.Exists | src/cache/memory.go:112-126 | True exactly when a lookup would hit |
| Cache.MemoryCache.GetMulti | src/cache/memory.go:129-146 | The keys stored and strictly before their expiry, with their values |
| Cache.MemoryCache.SetMulti | src/cache/memory.go:149-166 | All values under one expiry, no eviction |
| Cache.MemoryCache.CurrentSize | src/cache/memory.go:206-212 | The sum over all entries, in any order |
| Cache.MemoryCache.EvictOldest | src/cache/memory.go:215-237 | The victim is expired if any entry is, else one that expires first; an entry with the empty key is passed over in the second case |
| Cache.MemoryCache.Cleanup | src/cache/memory.go:255-266 | Exactly the expired entries go |
| Cache.LookupMeaning | src/cache/memory.go:50-67 | A lookup finds an entry up to and including its expiry |
| Cache.TtlMeaning | src/cache/memory.go:71-73 | A time to live that is not positive is an hour |
| Cache.SizeMeaning | src/cache/memory.go:206-212 | An entry weighs its key and its value |
| Cache.CleanedMeaning | src/cache/memory.go:255-266 | A cleanup keeps exactly the entries that a lookup still finds |
| Cache.LookupIsHistory | src/cache/memory.go:50-126 | A lookup hits if and only if the latest write, with no later delete or clear, is within its time to live and was not evicted, and returns what it wrote |
| Cache.LostToSet | src/cache/memory.go:78-88 | A write can cost another live entry its place if and only if there is no room, nothing is expired, and that entry is one that expires first and not under the empty key |
| Cache.AlikeLookup | src/cache/memory.go:50-67 | Two caches answer every lookup from now on alike if and only if they share their live entries |
| Cache.CleanupsUnseen | src/cache/memory.go:255-266 | Two runs through the same writes, deletes and clears, with cleanups in different places, answer every later lookup alike as long as every Set met its condition; the next Set cannot tell them apart if and only if it meets it |
| Cache.SetKeepsAlike | src/cache/memory.go:78-88 | A write keeps two caches alike, whatever it evicts, if and only if it costs neither a live entry, or they are equal and there is one possible victim |
| Cache.CleanupBeforeSet | src/cache/memory.go:78-88 | A cleanup that dropped something makes no difference to the next write if and only if the cleaned cache has room, an expired entry, or no other entry to lose |
| Cache.CleanupCostsLiveEntry | src/cache/memory.go:81-83 | A cache in which a cleanup makes the next write evict a live entry |
| Cache.MultiDiffersAtExpiry | src/cache/memory.go:137-137 | The two reads differ on a key at its expiry instant only |
| Whois.KeysApart | src/cache/cache.go:87-95 | The success and failure keys of accepted queries never collide |
| Whois.AcceptedIsNoFailure | src/whois/whois.go:47-71 | No query that is accepted starts with the failure prefix |
| Whois.QueryWHOISWithCache | src/whois/whois.go:97-186 | The answer is the specified one for the entries found; only an upstream query stores an entry, and which |
| Whois.AnswerMeaning | src/whois/whois.go:97-146 | When each outcome is given, by the entries under the two keys, the server and the reply |
| Whois.FreshMeaning | src/whois/whois.go:138-144 | A fresh result has the query, its type, the server chosen, the text upstream replied and the instant it was built |
| Whois.StoredMeaning | src/cache/cache.go:67-95 | A failure is stored for five minutes, a domain for a day, an address or AS number for a week, under their keys |
| Whois.AsnTexts | src/whois/whois.go:51-53 | An AS number is digits, perhaps after AS or as |
| Whois.OtherTexts | src/whois/whois.go:56-70 | Addresses are what the parser takes for one; a domain is labels of letters, digits and inner dashes; all else is refused |
| WhoisRuns.NextIsCall | src/whois/whois.go:97-186 | A step of a run is what the lookup leaves in a cache with room |
| WhoisRuns.RunHolds | src/whois/whois.go:97-186 | After any run the cache holds for each query what its last success and last failure stored, unless expired and swept |
| WhoisRuns.UpstreamThrottled | src/whois/whois.go:104-136 | Two upstream queries for one text are more than five minutes apart, and after a success more than the time to live of its type: a day for a domain, a week for the rest |
| WhoisRuns.HitIsLastSuccess | src/whois/whois.go:105-113 | A hit is the last upstream success for that text as the codec gives it back, apart from its timestamp, within its time to live |
| WhoisRuns.HitIsLastReply | src/whois/whois.go:105-144 | With a codec that loses nothing of it a hit has the very text that upstream replied to the last successful query |
| I18n.LeafAtFollows | src/common/i18n/i18n.go:66-83 | Reading a dotted key name by name is following the path its dots spell |
| I18n.Flatten | src/tools/i18n-validate/main.go:117-132 | Whatever the names and their order, each key to which the names of some path to a leaf join gets the value of such a leaf, and no other key is touched |
| I18n.FlattenAll | src/tools/i18n-validate/main.go:111-113 | The flat file has exactly the keys that paths to leaves join to, each with the value of such a leaf |
| I18n.ProperNamesFlat | src/tools/i18n-validate/main.go:117-132 | Without dotted and empty names the flat file does not depend on the order: at each key it has the leaf that the key's dots lead to |
| I18nValidate.SameSet | src/tools/i18n-validate/main.go:148-166 | The size and inclusion checks decide equality of the two sets |
| I18nValidate.DiffKeys | src/tools/i18n-validate/main.go:135-144 | Exactly the keys of one file that the other lacks |
| I18nValidate.TokensMeaning | src/tools/i18n-validate/main.go:21-21 | The tokens of a text are exactly the names of letters, digits and underscores in braces that occur in it |
| I18nValidate.AcceptedMeaning | src/tools/i18n-validate/main.go:36-96 | Accepted means: the six other languages have English's keys, no blank text and in each the names in braces of the English one |
| I18nValidate.CheckLanguage | src/tools/i18n-validate/main.go:50-83 | A language passes if and only if it has English's keys, no blank text and the same tokens |
| I18nValidate.Validate | src/tools/i18n-validate/main.go:36-96 | The validator passes if and only if every required language loads and passes and English has no blank text |
| I18nValidate.LookupAgrees | src/common/i18n/i18n.go:66-83 | The lookup agrees with the flat file at a key if and only if the leaf is a string or prints as nothing |
| I18nValidate.LookupIsFlat | src/common/i18n/i18n.go:66-83 | On string leaves the two readings of a tree agree at every key |
| I18nValidate.AcceptedTranslates | src/common/i18n/i18n.go:50-63 | After acceptance of a file of strings with proper names the translator answers every English key with the language's own text, not blank, in which a name in braces occurs if and only if it does in English, never the fallback |
| I18nValidate.TranslatorAnswers | src/common/i18n/i18n.go:50-63 | The language's own text, else English's, else the key |
| I18nValidate.AcceptedAnswers | src/common/i18n/i18n.go:50-63 | For every accepted file and key the translator gives the validated text if and only if its own lookup finds that text, or finds none and the fallback is that text |
| I18nValidate.ProperAnswers | src/common/i18n/i18n.go:50-63 | In accepted files with proper names that is so if and only if the value is a string or the fallback is the same text |
| I18nValidate.NumberFallsBack | src/tools/i18n-validate/main.go:128-129 | A file with a number is accepted, yet the translator answers with the bare key |
| I18nValidate.DottedNameFallsBack | src/tools/i18n-validate/main.go:119-122 | A file of strings with a dot in a name is accepted, yet the translator answers with the bare key |
| I18nValidate.EmptyNameFallsBack | src/tools/i18n-validate/main.go:119-122 | So is a file of strings with an empty name |
| UpdateChannel.SetUpdateChannel | src/update/update.go:253-309 | Bad channels, unreadable and unwritable files are refused; otherwise the text written is the specified one |
| UpdateChannel.LinesRead | src/update/update.go:274-296 | What a header, the end of a block, a branch line and the written line are |
| UpdateChannel.FirstStop | src/update/update.go:274-298 | The scan stops at the first line after a header that ends the block or is its branch line |
| UpdateChannel.OverwriteText | src/update/update.go:269-303 | Setting one channel and then another is setting the second, for every text |
| UpdateChannel.ReadsBack | src/update/update.go:269-303 | Reading the block's branch after setting it gives the channel |
| UpdateChannel.AlreadySet | src/update/update.go:289-293 | A text whose branch line is the one to be written stays as it is |
| UpdateChannel.OthersKept | src/update/update.go:269-303 | Apart from the branch line, and an appended header, every line is kept in order |
| Archive.AddPath | src/backup/backup.go:308-338 | A file that cannot be opened is an error; else it is appended as it is |
| Archive.AddTree | src/backup/backup.go:340-383 | Everything below a directory is appended under its name, unless something there cannot be read, which is an error |
| Archive.BuildContentArchive | src/backup/backup.go:123-190 | It fails if and only if the config or the database is missing or something to be backed up cannot be read; the archive shows the live files and covers exactly those to be backed up |
| Archive.BackedUpMeaning | src/backup/backup.go:123-190 | The files that are backed up, by their places in the config and data directories |
| Archive.EntryMeaning | src/backup/backup.go:123-190 | Each entry holds the bytes of the live file at its place |
| Archive.FinalMeaning | src/backup/backup.go:194-241 | The manifest comes first, then the content |
| Archive.RebuildContent | src/backup/backup.go:570-613 | The loop streams on every entry but the manifest |
| Archive.RebuildIsContent | src/backup/backup.go:194-241 | Without its manifest the final archive is the content archive, entry by entry |
| Restore.Disk.MkdirAll | src/backup/restore.go:323-325 | A directory and all above it are made if and only if no file is in the way and whatever is missing can be made |
| Restore.Disk.CopyFile | src/backup/restore.go:321-357 | It succeeds if and only if no file lies above the path, no directory at it, and what is missing or rewritten is writable; then the file has the bytes, its directories are made, nothing else changes |
| Restore.Disk.ExtractBackup | src/backup/restore.go:173-233 | It succeeds if and only if all entries fit together; then the fresh directory holds each entry's bytes under its name and no other file or directory, though files are opened without truncation |
| Restore.Disk.RestoreTree | src/backup/restore.go:359-385 | A tree is copied back file by file in any order; it succeeds if and only if all of it fits what is there and what was restored before |
| Restore.Disk.PerformRestore | src/backup/restore.go:253-317 | It succeeds if and only if all files and directories of the backup fit the live ones; then the restored paths have their snapshot bytes and every other file stays; after a failure midway that holds for the paths restored so far |
| Restore.BackupExtracts | src/backup/restore.go:173-233 | A backup of a well-formed file system can be extracted if and only if the paths it needs in the fresh directory are writable |
| Restore.ExtractedIsFaithful | src/backup/restore.go:173-233 | What comes out of a backup's archive has the bytes of the live paths it stands for |
| Restore.MadeIsNeeded | src/backup/restore.go:253-317 | The files written are exactly the files backed up, and the directories made exactly those backed up and those above the files |
| Restore.FitsWhenRestorable | src/backup/restore.go:253-317 | A backup can be restored over a live system if and only if no file lies where it has a directory, no directory where it has a file, and what is missing or rewritten is writable |
| Restore.RestoreArchive | src/backup/restore.go:68-91 | Extraction and copying together succeed if and only if the fresh directory is writable and the backup can be restored over the live system; then every backed-up path has its snapshot bytes, every backed-up directory is there and no other file is changed |
| Restore.RoundTrip | src/backup/restore.go:253-317 | Over the unchanged live system, its backed-up files being writable, a restoration is possible and leaves everything as it is |
| Restore.RestoredPaths | src/backup/restore.go:253-317 | Over any live system a restoration gives every backed-up path its snapshot bytes, makes every backed-up directory and changes, adds and removes no other file |
| Restore.StaysWellFormed | src/backup/restore.go:253-317 | A restoration leaves a well-formed file system well formed |

## Left out

- Zones with changing offsets: the zone has a fixed offset, so daylight-saving changes are not modelled.
- `time.ParseDuration`, `net.ParseIP`, the server tables and the JSON codec are parameters; the laws of the lookup assume that an IP text has only hexadecimal digits, dots and colons, and that what was encoded can be decoded.
- CronNames.NormalizeCronField: changes the case of a letter only where the capital is an ASCII letter; other letters keep theirs, which concerns only texts that do not parse. The same goes for the small letters of Whois.DetectQueryType and queries that are refused.
- Cache.MemoryCache.Set: a key or value counts its characters, where the code counts bytes; the clock is read once where the code reads it twice under the lock.
- Byte counts, run counts and the wait counter are unbounded integers; instants do not overflow.
- Scheduler.SchedulerObject.Register: reading and writing the task table is reduced to the stored row found; writes to the database and the history table have no effect on the model's state, as their failures are only logged.
- Re-registering an identifier while runs of its old task object are in flight: the methods act on objects and allow it, the laws over runs register each identifier once.
- SchedulerLaws.BoundedLateness: takes the loop's own steps as instantaneous and the timer as exact, and starts from a catch-up or a check.
- The refusal to start or launch while the scheduler is stopping: the flag is read but never set. `Stop`'s 30-second limit on waiting is left out; cancelling lets a sleeping loop exit.
- Retry.ExecuteTask: the handler's outcome and a shutdown during a wait are given per attempt; a panic counts as a failure.
- Names of backup files and their dates, and the parsing of the size cap: retention starts from days, the cap from bytes.
- I18nValidate.DiffKeys: gives the set of keys, not the order in which they are printed.
- Tar, gzip, encryption, file modes, links and the check for paths that leave the directory: an archive is its list of entries, and those of a backup have proper names.
- Archive.BuildContentArchive: the order of a directory walk is arbitrary, directories first.
- Restore.RestoreArchive: reading, decrypting and verifying the archive file and parsing its manifest come before it; the file system a backup is taken from has every file and directory inside a directory, and nothing that is both.
- Restore.Disk.PerformRestore: a copy fails before it has written anything; one that breaks off in the middle of a file is not modelled.
- Scheduler.SchedulerObject.CheckTasks: a check, the catch-up and the computation of the next delay read the clock and take the lock at one instant; the code reads the clock first and may wait for the lock.
- Ratelimit client-address parsing, WHOIS response parsing, the other cache implementations, and all network, mail, service and page code: plumbing, or easy members beside these.

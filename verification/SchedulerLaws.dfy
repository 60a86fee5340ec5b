/** What holds in every interleaving of the scheduler. */
module SchedulerLaws {
  import opened Durations
  import opened Text
  import opened SchedulerModel

  // ---------- deadlines move forward ----------

  /** No deadline of a task ever goes back, and a new one lies in the future. */
  ghost predicate DeadlinesAdvance(s: State, s': State) {
    forall id :: id in s.tasks ==> id in s'.tasks && DeadlineAdvances(s.tasks[id], s'.tasks[id], s.clock)
  }

  predicate DeadlineAdvances(t: Task, t': Task, now: int) {
    t'.schedule == t.schedule && (t'.nextRun == t.nextRun || (t'.nextRun > t.nextRun && t'.nextRun > now))
  }

  lemma TickedAdvances(t: Task, now: int, next: Clockwork)
    requires Later(next)
    ensures Ticked(t, now, next).schedule == t.schedule
    ensures if Due(t, now) && next(t.schedule, now).Some? then Ticked(t, now, next).nextRun > now >= t.nextRun
            else Ticked(t, now, next) == t
  {
  }

  lemma CompletedAdvances(t: Task, start: int, now: int, ok: bool, next: Clockwork)
    requires Later(next) && 0 < start <= now
    ensures var t' := Completed(t, start, now, ok, next);
      && t'.schedule == t.schedule && t'.enabled == t.enabled
      && (if t.nextRun == 0 || t.nextRun <= start then t'.nextRun > now && t'.nextRun > t.nextRun
          else t'.nextRun == t.nextRun)
  {
  }

  // ---------- the invariant ----------

  function LoopCount(loop: Loop): int { if loop.Off? || loop.Exited? then 0 else 1 }

  function TrackedRuns(runs: map<nat, Run>): set<nat> { set n | n in runs && runs[n].tracked }

  function Pending(loop: Loop): seq<string> { if loop.Launching? then loop.due else [] }

  ghost predicate RunsValid(s: State) {
    s.clock > 0 &&
    forall n :: n in s.runs ==>
      (n < s.nextId && s.runs[n].id in s.tasks &&
       (s.runs[n].phase.Running? ==> 0 < s.runs[n].phase.start <= s.clock))
  }

  /** The wait counter counts the loop, from its reservation on, and the tracked runs in flight. */
  ghost predicate WaitValid(s: State) { s.wait == LoopCount(s.loop) + |TrackedRuns(s.runs)| }

  /** Every deadline handed out is launched once, in order, or still waiting its turn. */
  ghost predicate LaunchesValid(s: State) {
    |s.log| == |s.launched| + |Pending(s.loop)| &&
    forall i :: 0 <= i < |s.log| ==> s.log[i].id == (s.launched + Pending(s.loop))[i]
  }

  /** A deadline that was handed out is behind its task's next one, if the schedule always has one. */
  ghost predicate LogBehind(s: State, c: Config) {
    forall i :: 0 <= i < |s.log| ==>
      (s.log[i].id in s.tasks &&
       (Total(c.next, s.tasks[s.log[i].id].schedule) ==> s.log[i].deadline < s.tasks[s.log[i].id].nextRun))
  }

  /** No deadline is handed out twice: for one task they strictly increase. */
  ghost predicate LogIncreases(s: State, c: Config) {
    forall i, j ::
      (0 <= i < j < |s.log| && s.log[i].id == s.log[j].id && s.log[i].id in s.tasks &&
       Total(c.next, s.tasks[s.log[i].id].schedule)) ==> s.log[i].deadline < s.log[j].deadline
  }

  ghost predicate Inv(s: State, c: Config) {
    RunsValid(s) && WaitValid(s) && LaunchesValid(s) && LogBehind(s, c) && LogIncreases(s, c)
  }

  lemma InitialInv(s: State, c: Config)
    requires Initial(s)
    ensures Inv(s, c)
  {
    assert TrackedRuns(s.runs) == {};
  }

  lemma StepDeadlines(s: State, e: Event, c: Config)
    requires Later(c.next) && RunsValid(s) && Enabled(s, e, c)
    ensures DeadlinesAdvance(s, Apply(s, e, c))
  {
    var s' := Apply(s, e, c);
    if e.CatchUp? || e.Check? {
      forall id | id in s.tasks { TickedAdvances(s.tasks[id], s.clock, c.next); }
    } else if e.Finish? {
      var r := s.runs[e.run];
      CompletedAdvances(s.tasks[r.id], r.phase.start, s.clock, e.ok, c.next);
    }
  }

  lemma StepRuns(s: State, e: Event, c: Config)
    requires RunsValid(s) && LogBehind(s, c) && Enabled(s, e, c)
    ensures RunsValid(Apply(s, e, c))
  {
  }

  lemma TrackedAdd(runs: map<nat, Run>, n: nat, r: Run)
    requires n !in runs
    ensures |TrackedRuns(runs[n := r])| == |TrackedRuns(runs)| + if r.tracked then 1 else 0
  {
    if r.tracked {
      assert TrackedRuns(runs[n := r]) == TrackedRuns(runs) + {n};
    } else {
      assert TrackedRuns(runs[n := r]) == TrackedRuns(runs);
    }
  }

  lemma TrackedRemove(runs: map<nat, Run>, n: nat)
    requires n in runs
    ensures |TrackedRuns(runs - {n})| == |TrackedRuns(runs)| - if runs[n].tracked then 1 else 0
  {
    assert TrackedRuns(runs - {n}) == TrackedRuns(runs) - {n};
    if runs[n].tracked { assert n in TrackedRuns(runs); }
  }

  lemma TrackedSame(runs: map<nat, Run>, n: nat, r: Run)
    requires n in runs && r.tracked == runs[n].tracked
    ensures |TrackedRuns(runs[n := r])| == |TrackedRuns(runs)|
  {
    assert TrackedRuns(runs[n := r]) == TrackedRuns(runs);
  }

  lemma StepWait(s: State, e: Event, c: Config)
    requires RunsValid(s) && WaitValid(s) && Enabled(s, e, c)
    ensures WaitValid(Apply(s, e, c))
  {
    hide TrackedRuns, TickAll, Dispatches;
    match e {
      case LaunchNext =>
        if s.loop.due != [] { TrackedAdd(s.runs, s.nextId, Run(s.loop.due[0], true, Spawned)); }
      case RunNow(id) => TrackedAdd(s.runs, s.nextId, Run(id, IsStarted(s), Spawned));
      case Begin(run) => TrackedSame(s.runs, run, s.runs[run].(phase := Running(s.clock)));
      case Finish(run, ok) => TrackedSame(s.runs, run, s.runs[run].(phase := Finished));
      case Done(run) => TrackedRemove(s.runs, run);
      case _ =>
    }
  }

  lemma StepLaunches(s: State, e: Event, c: Config)
    requires LaunchesValid(s) && Enabled(s, e, c)
    ensures LaunchesValid(Apply(s, e, c))
  {
    hide TickAll, Completed, IsDelay;
    var s' := Apply(s, e, c);
    if e.LaunchNext? {
      if s.loop.due != [] {
        assert s'.launched + s'.loop.due == s.launched + s.loop.due;
      }
    } else if e.CatchUp? || e.Check? {
      LaunchesAppend(s.log, s.launched, e.due, Dispatches(e.due, s.tasks, s.clock, e.Check?));
    }
  }

  lemma LaunchesAppend(log: seq<Dispatch>, launched: seq<string>, due: seq<string>, more: seq<Dispatch>)
    requires |log| == |launched| && |more| == |due|
    requires forall i :: 0 <= i < |log| ==> log[i].id == launched[i]
    requires forall i :: 0 <= i < |due| ==> more[i].id == due[i]
    ensures forall i :: 0 <= i < |log + more| ==> (log + more)[i].id == (launched + due)[i]
  {
  }

  lemma StepLogBehind(s: State, e: Event, c: Config)
    requires Later(c.next) && RunsValid(s) && LogBehind(s, c) && Enabled(s, e, c)
    ensures LogBehind(Apply(s, e, c), c)
  {
    hide TickAll, Dispatches, Completed, IsDelay, DueIds, MissedIds;
    StepDeadlines(s, e, c);
    if e.CatchUp? || e.Check? { NewEntriesBehind(s, e, c); }
  }

  lemma NewEntriesBehind(s: State, e: Event, c: Config)
    requires Later(c.next) && Enabled(s, e, c) && (e.CatchUp? || e.Check?)
    ensures var s' := Apply(s, e, c);
      |s.log| <= |s'.log| && s'.log[..|s.log|] == s.log &&
      forall i :: |s.log| <= i < |s'.log| ==>
        (s'.log[i].id in s'.tasks &&
         (Total(c.next, s'.tasks[s'.log[i].id].schedule) ==> s'.log[i].deadline < s'.tasks[s'.log[i].id].nextRun))
  {
    var s' := Apply(s, e, c);
    forall i | |s.log| <= i < |s'.log|
      ensures s'.log[i].id in s'.tasks &&
        (Total(c.next, s'.tasks[s'.log[i].id].schedule) ==> s'.log[i].deadline < s'.tasks[s'.log[i].id].nextRun)
    {
      var id := e.due[i - |s.log|];
      assert s'.log[i] == Dispatch(id, s.tasks[id].nextRun, s.clock, e.Check?);
      TickedAdvances(s.tasks[id], s.clock, c.next);
    }
  }

  lemma StepLogIncreases(s: State, e: Event, c: Config)
    requires Later(c.next) && RunsValid(s) && LogBehind(s, c) && LogIncreases(s, c) && Enabled(s, e, c)
    ensures LogIncreases(Apply(s, e, c), c)
  {
    var s' := Apply(s, e, c);
    StepDeadlines(s, e, c);
    NewEntries(s, e, c);
    hide Apply, Enabled, RunsValid;
    forall i, j | 0 <= i < j < |s'.log| && s'.log[i].id == s'.log[j].id && s'.log[i].id in s'.tasks &&
        Total(c.next, s'.tasks[s'.log[i].id].schedule)
      ensures s'.log[i].deadline < s'.log[j].deadline
    {
    }
  }

  /** What a step adds to the log: one entry for each task it hands out. */
  lemma NewEntries(s: State, e: Event, c: Config)
    requires Enabled(s, e, c)
    ensures var s' := Apply(s, e, c);
      && |s.log| <= |s'.log| && s'.log[..|s.log|] == s.log
      && (forall j :: |s.log| <= j < |s'.log| ==>
            s'.log[j].id in s.tasks && s'.log[j].deadline == s.tasks[s'.log[j].id].nextRun)
      && (forall i, j :: |s.log| <= i < j < |s'.log| ==> s'.log[i].id != s'.log[j].id)
  {
    hide TickAll, Completed, IsDelay;
  }

  /** Every step keeps the invariant. */
  lemma StepInv(s: State, e: Event, c: Config)
    requires Later(c.next) && Inv(s, c) && Enabled(s, e, c)
    ensures Inv(Apply(s, e, c), c)
  {
    hide RunsValid, WaitValid, LaunchesValid, LogBehind, LogIncreases, Apply, Enabled;
    StepRuns(s, e, c);
    StepWait(s, e, c);
    StepLaunches(s, e, c);
    StepLogBehind(s, e, c);
    StepLogIncreases(s, e, c);
  }

  // ---------- over whole runs ----------

  lemma {:induction false} RunInv(states: seq<State>, events: seq<Event>, c: Config, n: nat)
    requires Later(c.next) && IsRun(states, events, c) && Inv(states[0], c) && n < |states|
    ensures Inv(states[n], c)
  {
    hide Inv, Enabled, Apply;
    if n > 0 {
      RunInv(states, events, c, n - 1);
      StepInv(states[n - 1], events[n - 1], c);
    }
  }

  /** In every interleaving, at every moment: no deadline is handed out twice for a task whose
      schedule always has a next time, every deadline handed out is launched once and in order,
      and the wait counter counts the loop and the tracked runs. */
  lemma EveryInterleaving(states: seq<State>, events: seq<Event>, c: Config, n: nat)
    requires Later(c.next) && IsRun(states, events, c) && Initial(states[0]) && n < |states|
    ensures var s := states[n];
      && LogIncreases(s, c) && LaunchesValid(s)
      && s.wait == LoopCount(s.loop) + |TrackedRuns(s.runs)| && s.wait >= 0
      && (s.wait == 0 ==> (s.loop.Off? || s.loop.Exited?) && TrackedRuns(s.runs) == {})
  {
    hide Enabled, Apply;
    InitialInv(states[0], c);
    RunInv(states, events, c, n);
  }

  /** Over any stretch of a run a task's deadline only grows, and a changed one lay in the future
      when the stretch began. */
  lemma {:induction false} RunDeadlines(states: seq<State>, events: seq<Event>, c: Config, i: nat, j: nat, id: string)
    requires Later(c.next) && IsRun(states, events, c) && Inv(states[0], c) && i <= j < |states|
    requires id in states[i].tasks
    ensures states[i].clock <= states[j].clock
    ensures id in states[j].tasks && DeadlineAdvances(states[i].tasks[id], states[j].tasks[id], states[i].clock)
  {
    hide Inv, Enabled;
    if i < j {
      RunDeadlines(states, events, c, i, j - 1, id);
      RunInv(states, events, c, j - 1);
      assert RunsValid(states[j - 1]) by { InvParts(states[j - 1], c); }
      StepDeadlines(states[j - 1], events[j - 1], c);
      ClockGrows(states[j - 1], events[j - 1], c);
      hide Apply;
    }
  }

  lemma InvParts(s: State, c: Config)
    requires Inv(s, c)
    ensures RunsValid(s) && WaitValid(s) && LaunchesValid(s) && LogBehind(s, c) && LogIncreases(s, c)
  {
  }

  lemma ClockGrows(s: State, e: Event, c: Config)
    requires Enabled(s, e, c)
    ensures s.clock <= Apply(s, e, c).clock
  {
  }

  /** The tasks a launching loop or a finishing run refers to are registered: these guards never block. */
  lemma GuardsHold(s: State, c: Config)
    requires Inv(s, c)
    ensures s.loop.Launching? ==> Enabled(s, LaunchNext, c)
    ensures forall n, ok :: n in s.runs && s.runs[n].phase.Running? ==> Enabled(s, Finish(n, ok), c)
  {
    if s.loop.Launching? {
      forall i | 0 <= i < |s.loop.due| ensures s.loop.due[i] in s.tasks {
        var k := |s.launched| + i;
        assert (s.launched + s.loop.due)[k] == s.loop.due[i] == s.log[k].id;
      }
    }
  }

  /** Catch-up hands out a missed deadline exactly when the miss is within the window, each once,
      and leaves every due task whose schedule has a next time with a deadline in the future. */
  lemma CatchUpExact(s: State, due: seq<string>, c: Config, id: string)
    requires Later(c.next) && Enabled(s, CatchUp(due), c) && id in s.tasks
    ensures var t, s' := s.tasks[id], Apply(s, CatchUp(due), c);
      && (id in due <==> Due(t, s.clock) && s.clock - t.nextRun <= c.window)
      && (forall i, j :: 0 <= i < j < |due| ==> due[i] != due[j])
      && Pending(s'.loop) == due
      && (Due(t, s.clock) && c.next(t.schedule, s.clock).Some? ==> s'.tasks[id].nextRun > s.clock)
      && (!Due(t, s.clock) ==> s'.tasks[id] == t)
  {
    TickedAdvances(s.tasks[id], s.clock, c.next);
  }

  // ---------- deadlines handed out more than once ----------

  /** A deadline `d` of task `id` survives the event: no look at the task finds it due and a next time
      for it, and no run of the task ends that started at or after `d`. */
  ghost predicate Survives(s: State, e: Event, c: Config, id: string, d: int)
    requires Enabled(s, e, c) && id in s.tasks
  {
    && (e.CatchUp? || e.Check? ==> !(Due(s.tasks[id], s.clock) && c.next(s.tasks[id].schedule, s.clock).Some?))
    && (e.Finish? && s.runs[e.run].id == id ==> s.runs[e.run].phase.start < d)
  }

  lemma StepSurvives(s: State, e: Event, c: Config, id: string)
    requires Later(c.next) && RunsValid(s) && Enabled(s, e, c) && id in s.tasks && s.tasks[id].nextRun != 0
    ensures id in Apply(s, e, c).tasks
    ensures Apply(s, e, c).tasks[id].nextRun == s.tasks[id].nextRun <==> Survives(s, e, c, id, s.tasks[id].nextRun)
    ensures Apply(s, e, c).tasks[id].nextRun >= s.tasks[id].nextRun
  {
    hide Completed, Dispatches, Lists, DueIds, MissedIds, IsDelay;
    if e.CatchUp? || e.Check? {
      TickedAdvances(s.tasks[id], s.clock, c.next);
      assert Apply(s, e, c).tasks[id] == Ticked(s.tasks[id], s.clock, c.next);
    } else if e.Finish? {
      var r := s.runs[e.run];
      CompletedAdvances(s.tasks[r.id], r.phase.start, s.clock, e.ok, c.next);
    }
  }

  /** Every event of a stretch leaves the deadline standing. */
  ghost predicate SurvivesAll(states: seq<State>, events: seq<Event>, c: Config, id: string, d: int, i: nat, j: nat)
    requires IsRun(states, events, c) && i <= j < |states|
  {
    forall k :: i <= k < j ==> id in states[k].tasks && Survives(states[k], events[k], c, id, d)
  }

  /** A task has the same deadline later on if and only if, in between, no check finds a next time
      for it and no run of the task ends that started at or after it. */
  lemma {:induction false} DeadlineStands(states: seq<State>, events: seq<Event>, c: Config, id: string, i: nat, j: nat)
    requires Later(c.next) && IsRun(states, events, c) && Inv(states[0], c) && i <= j < |states|
    requires id in states[i].tasks && states[i].tasks[id].nextRun != 0
    ensures id in states[j].tasks && states[j].tasks[id].nextRun >= states[i].tasks[id].nextRun
    ensures states[j].tasks[id].schedule == states[i].tasks[id].schedule && states[j].clock >= states[i].clock
    ensures var d := states[i].tasks[id].nextRun;
      states[j].tasks[id].nextRun == d <==> SurvivesAll(states, events, c, id, d, i, j)
  {
    hide Inv, Enabled, Apply, Survives;
    RunDeadlines(states, events, c, i, j, id);
    if i < j {
      var d := states[i].tasks[id].nextRun;
      DeadlineStands(states, events, c, id, i, j - 1);
      RunInv(states, events, c, j - 1);
      InvParts(states[j - 1], c);
      RunInv(states, events, c, i);
      InvParts(states[i], c);
      hide RunsValid;
      var before := states[j - 1].tasks[id].nextRun;
      if before == d {
        StepSurvives(states[j - 1], events[j - 1], c, id);
        assert SurvivesAll(states, events, c, id, d, i, j) <==>
          SurvivesAll(states, events, c, id, d, i, j - 1) && Survives(states[j - 1], events[j - 1], c, id, d);
      } else {
        RunDeadlines(states, events, c, j - 1, j, id);
      }
    }
  }

  /** Task `id` is handed out at event `k`. */
  ghost predicate HandsOut(events: seq<Event>, k: nat, id: string)
    requires k < |events|
  {
    (events[k].Check? || events[k].CatchUp?) && id in events[k].due
  }

  /** The exact law on handing a deadline out twice. What is handed out at `i` is handed out again by
      a later check, at which the task is enabled, if and only if nothing in between has moved it:
      no look that finds a next time, and no end of a run that started at or after it. */
  lemma HandedOutAgain(states: seq<State>, events: seq<Event>, c: Config, id: string, i: nat, j: nat)
    requires Later(c.next) && IsRun(states, events, c) && Inv(states[0], c) && i < j < |events|
    requires HandsOut(events, i, id) && events[j].Check?
    requires id in states[j].tasks && states[j].tasks[id].enabled
    ensures id in states[i].tasks
    ensures var d := states[i].tasks[id].nextRun;
      HandsOut(events, j, id) && states[j].tasks[id].nextRun == d <==> SurvivesAll(states, events, c, id, d, i, j)
  {
    hide Inv, SurvivesAll;
    assert Enabled(states[i], events[i], c) && Enabled(states[j], events[j], c);
    DeadlineStands(states, events, c, id, i, j);
  }

  /** The end of a run that started at or after its task's deadline moves the deadline, even without a
      next time: then to an hour from now, before which the task is not due again. */
  lemma StuckRenewed(s: State, run: nat, ok: bool, c: Config)
    requires Later(c.next) && RunsValid(s) && Enabled(s, Finish(run, ok), c)
    requires var t := s.tasks[s.runs[run].id];
      t.nextRun <= s.runs[run].phase.start && c.next(t.schedule, s.clock) == None
    ensures var (id, s') := (s.runs[run].id, Apply(s, Finish(run, ok), c));
      && s'.tasks[id].nextRun == s.clock + HOUR
      && (forall now :: id in DueIds(s'.tasks, now) <==> s.tasks[id].enabled && now >= s.clock + HOUR)
  {
  }

  // ---------- what each step writes ----------

  /** A check, task by task: a task is handed out when it is enabled and has a deadline that is set and not
      in the future; its deadline becomes the schedule's next time, if there is one. Nothing else of
      any task changes. */
  lemma CheckMoves(s: State, due: seq<string>, c: Config, id: string)
    requires Enabled(s, Check(due), c) && id in s.tasks
    ensures var t := s.tasks[id]; var isDue := t.enabled && t.nextRun != 0 && t.nextRun <= s.clock;
      && (id in due <==> isDue)
      && Apply(s, Check(due), c).tasks[id] ==
           if isDue && c.next(t.schedule, s.clock).Some? then t.(nextRun := c.next(t.schedule, s.clock).value) else t
  {
  }

  /** The catch-up moves deadlines in the same way, but hands out only what was missed within the window. */
  lemma CatchUpMoves(s: State, due: seq<string>, c: Config, id: string)
    requires Enabled(s, CatchUp(due), c) && id in s.tasks
    ensures var t := s.tasks[id]; var isDue := t.enabled && t.nextRun != 0 && t.nextRun <= s.clock;
      && (id in due <==> isDue && s.clock - t.nextRun <= c.window)
      && Apply(s, CatchUp(due), c).tasks[id] ==
           if isDue && c.next(t.schedule, s.clock).Some? then t.(nextRun := c.next(t.schedule, s.clock).value) else t
  {
  }

  /** The end of a run: a good end raises the run count, a bad one the failure count; a deadline that the
      start had reached becomes the schedule's next time, or an hour from now. */
  lemma FinishWrites(s: State, run: nat, ok: bool, c: Config)
    requires Enabled(s, Finish(run, ok), c)
    ensures var (id, start) := (s.runs[run].id, s.runs[run].phase.start);
      var (t, s') := (s.tasks[id], Apply(s, Finish(run, ok), c)); var t' := s'.tasks[id];
      && s'.tasks == s.tasks[id := t'] && t'.schedule == t.schedule && t'.enabled == t.enabled && t'.lastRun == start
      && t'.status == (if ok then Success else Failed)
      && t'.runCount == (if ok then t.runCount + 1 else t.runCount)
      && t'.failCount == (if ok then t.failCount else t.failCount + 1)
      && t'.nextRun ==
           if t.nextRun != 0 && t.nextRun > start then t.nextRun
           else if c.next(t.schedule, s.clock).Some? then c.next(t.schedule, s.clock).value
           else s.clock + 3_600_000_000_000
  {
  }

  /** Switching a task on or off changes its flag; starting it by hand adds a run, which is counted if and
      only if the scheduler has started, and which changes no task. */
  lemma OtherWrites(s: State, id: string, c: Config)
    requires id in s.tasks
    ensures Apply(s, Enable(id), c).tasks == s.tasks[id := s.tasks[id].(enabled := true)]
    ensures Apply(s, Disable(id), c).tasks == s.tasks[id := s.tasks[id].(enabled := false)]
    ensures var s' := Apply(s, RunNow(id), c);
      && s'.tasks == s.tasks && s'.log == s.log && s'.loop == s.loop
      && s'.runs == s.runs[s.nextId := Run(id, !s.loop.Off?, Spawned)] && s'.nextId == s.nextId + 1
      && s'.wait == s.wait + if s.loop.Off? then 0 else 1
  {
  }

  /** Among prompt and other loops alike, only a cancelled one that sleeps ends. */
  lemma EndsWhenCancelled(s: State, e: Event, c: Config)
    requires Enabled(s, e, c) && !s.loop.Exited? && Apply(s, e, c).loop.Exited?
    ensures s.cancelled && s.loop.Sleeping? && Apply(s, e, c).wait == s.wait - 1
  {
  }

  /** No enabled task has an earlier deadline than this one. */
  ghost predicate IsFirstDeadline(first: string, tasks: Tasks) {
    first in tasks && tasks[first].enabled && tasks[first].nextRun != 0 &&
    forall id :: id in tasks && tasks[id].enabled && tasks[id].nextRun != 0 ==> tasks[first].nextRun <= tasks[id].nextRun
  }

  /** The delay is determined: a minute if no enabled task has a deadline within it, a second if one is
      that near or past, and else the time until the first of them. */
  lemma DelayMeaning(delay: int, tasks: Tasks, now: int)
    requires IsDelay(delay, tasks, now)
    ensures (forall id :: id in tasks && tasks[id].enabled && tasks[id].nextRun != 0 ==> tasks[id].nextRun >= now + MINUTE) ==>
      delay == 60_000_000_000
    ensures (exists id :: id in tasks && tasks[id].enabled && tasks[id].nextRun != 0 && tasks[id].nextRun <= now + SECOND) ==>
      delay == 1_000_000_000
    ensures forall first :: IsFirstDeadline(first, tasks) && now + SECOND < tasks[first].nextRun < now + MINUTE ==>
      delay == tasks[first].nextRun - now
  {
  }

  // ---------- a check and its launches ----------

  /** The loop takes all the launches that are pending, one step each, and then moves on. */
  ghost function LaunchRest(s: State, c: Config): State
    requires Enabled(s, LaunchNext, c)
    decreases |s.loop.due|
  {
    var s' := Apply(s, LaunchNext, c);
    if s.loop.due == [] then s' else LaunchRest(s', c)
  }

  /** One tracked run for each task listed, numbered from `n` on. */
  function Spawn(runs: map<nat, Run>, n: nat, due: seq<string>): (r: map<nat, Run>)
    ensures forall k :: k in runs && k < n ==> k in r && r[k] == runs[k]
    ensures forall k :: n <= k < n + |due| ==> k in r && r[k] == Run(due[k - n], true, Spawned)
    decreases |due|
  {
    if due == [] then runs else Spawn(runs[n := Run(due[0], true, Spawned)], n + 1, due[1..])
  }

  /** What the steps of a list of launches add up to: one tracked run for each task, in order. */
  lemma {:induction false} LaunchRestMeaning(s: State, c: Config)
    requires Enabled(s, LaunchNext, c)
    ensures var due := s.loop.due;
      LaunchRest(s, c) == s.(loop := if s.loop.first then Checking else Delaying, wait := s.wait + |due|,
        launched := s.launched + due, nextId := s.nextId + |due|, runs := Spawn(s.runs, s.nextId, due))
    decreases |s.loop.due|
  {
    if s.loop.due == [] {
      assert s.launched + [] == s.launched && Spawn(s.runs, s.nextId, []) == s.runs;
    } else {
      var due := s.loop.due;
      var s' := Apply(s, LaunchNext, c);
      LaunchRestMeaning(s', c);
      assert s'.runs == s.runs[s.nextId := Run(due[0], true, Spawned)];
      assert s.launched + [due[0]] + due[1..] == s.launched + due;
    }
  }

  /** `checkTasks` as steps: a check and its launches advance every due deadline first, and then start
      one tracked run for each task that was due, whatever order they are listed in. */
  lemma CheckThenLaunches(s: State, due: seq<string>, c: Config)
    requires Enabled(s, Check(due), c)
    ensures Enabled(Apply(s, Check(due), c), LaunchNext, c)
    ensures var s' := LaunchRest(Apply(s, Check(due), c), c);
      && s'.tasks == TickAll(s.tasks, s.clock, c.next) && s'.loop.Delaying? && Lists(due, DueIds(s.tasks, s.clock))
      && s'.wait == s.wait + |due| && s'.launched == s.launched + due
      && s'.runs == Spawn(s.runs, s.nextId, due)
  {
    hide TickAll, Lists, DueIds, Spawn;
    ListedTasks(s, due);
    var s' := Apply(s, Check(due), c);
    assert s'.loop == Launching(due, false);
    assert forall i :: 0 <= i < |due| ==> due[i] in s'.tasks;
    LaunchRestMeaning(s', c);
  }

  lemma ListedTasks(s: State, due: seq<string>)
    requires Lists(due, DueIds(s.tasks, s.clock))
    ensures forall i :: 0 <= i < |due| ==> due[i] in s.tasks
  {
  }

  // ---------- completed runs are counted ----------

  /** How many of the first `n` events end a run of task `id` with the given outcome. */
  ghost function Completions(states: seq<State>, events: seq<Event>, id: string, ok: bool, n: nat): nat
    requires n <= |events| < |states|
  {
    if n == 0 then 0
    else
      var (s, e) := (states[n - 1], events[n - 1]);
      Completions(states, events, id, ok, n - 1) +
        if e.Finish? && e.ok == ok && e.run in s.runs && s.runs[e.run].id == id then 1 else 0
  }

  /** A task's run count grows by exactly its runs that end well, its failure count by exactly those that
      fail; so together they count its completed runs. */
  lemma {:induction false} CountsCompletions(states: seq<State>, events: seq<Event>, c: Config, id: string, n: nat)
    requires IsRun(states, events, c) && id in states[0].tasks && n < |states|
    ensures id in states[n].tasks
    ensures states[n].tasks[id].runCount == states[0].tasks[id].runCount + Completions(states, events, id, true, n)
    ensures states[n].tasks[id].failCount == states[0].tasks[id].failCount + Completions(states, events, id, false, n)
  {
    if n > 0 {
      CountsCompletions(states, events, c, id, n - 1);
      var s, e := states[n - 1], events[n - 1];
      assert Enabled(s, e, c) && states[n] == Apply(s, e, c);
      StepCount(s, e, c, id);
    }
  }

  lemma StepCount(s: State, e: Event, c: Config, id: string)
    requires Enabled(s, e, c) && id in s.tasks
    ensures id in Apply(s, e, c).tasks
    ensures var t, t' := s.tasks[id], Apply(s, e, c).tasks[id]; var ends := e.Finish? && s.runs[e.run].id == id;
      t'.runCount == t.runCount + (if ends && e.ok then 1 else 0) &&
      t'.failCount == t.failCount + (if ends && !e.ok then 1 else 0)
  {
    hide Dispatches, Lists, DueIds, MissedIds, IsDelay;
  }

  /** A run number that has ended, or has been dropped, never runs again. */
  predicate Over(s: State, run: nat) {
    run < s.nextId && (run in s.runs ==> s.runs[run].phase.Finished?)
  }

  lemma StepOver(s: State, e: Event, c: Config, run: nat)
    requires Enabled(s, e, c) && Over(s, run)
    ensures Over(Apply(s, e, c), run)
  {
    hide TickAll, Dispatches, Completed, Lists, IsDelay;
  }

  lemma {:induction false} StaysOver(states: seq<State>, events: seq<Event>, c: Config, run: nat, i: nat, j: nat)
    requires IsRun(states, events, c) && i <= j < |states| && Over(states[i], run)
    ensures Over(states[j], run)
  {
    if i < j {
      hide Over, Enabled, Apply;
      StaysOver(states, events, c, run, i, j - 1);
      StepOver(states[j - 1], events[j - 1], c, run);
    }
  }

  /** No run completes twice. */
  lemma CompletesOnce(states: seq<State>, events: seq<Event>, c: Config, run: nat, i: nat, j: nat)
    requires Later(c.next) && IsRun(states, events, c) && Inv(states[0], c) && i < j < |events|
    requires events[i].Finish? && events[i].run == run
    ensures !(events[j].Finish? && events[j].run == run)
  {
    RunInv(states, events, c, i);
    InvParts(states[i], c);
    assert Enabled(states[i], events[i], c) && states[i + 1] == Apply(states[i], events[i], c);
    StaysOver(states, events, c, run, i + 1, j);
    assert Enabled(states[j], events[j], c);
  }

  // ---------- bounded lateness ----------

  /** The loop's own steps take no time, and the timer rings on time: the clock moves only while
      the loop is not running or sleeps, and never past the wake-up. */
  predicate Prompt(s: State, e: Event) {
    e.Pass? ==> s.loop.Off? || s.loop.Exited? || (s.loop.Sleeping? && s.clock + e.time <= s.loop.wake)
  }

  /** A task whose deadline the loop is watching. */
  predicate Watched(s: State, id: string) {
    id in s.tasks && s.tasks[id].enabled && s.clock > 0 &&
    var deadline := s.tasks[id].nextRun;
    match s.loop
    case Launching(_, _) => deadline > s.clock && s.clock == s.lastCheck
    case Delaying => deadline > s.clock && s.clock == s.lastCheck
    case Sleeping(wake) =>
      s.lastCheck <= s.clock <= wake && deadline > s.lastCheck && s.lastCheck > 0 &&
      (wake <= s.lastCheck + SECOND || wake <= deadline)
    case Checking => deadline > 0 && s.clock < deadline + SECOND
    case Exited => true
    case _ => false
  }

  /** Catch-up and every check leave each enabled task with a schedule watched. */
  lemma CheckWatches(s: State, e: Event, c: Config, id: string)
    requires Later(c.next) && RunsValid(s) && Enabled(s, e, c) && (e.CatchUp? || e.Check?)
    requires id in s.tasks && s.tasks[id].enabled && s.tasks[id].nextRun != 0 && Total(c.next, s.tasks[id].schedule)
    ensures Watched(Apply(s, e, c), id)
  {
    TickedAdvances(s.tasks[id], s.clock, c.next);
  }

  lemma StepWatches(s: State, e: Event, c: Config, id: string)
    requires Later(c.next) && RunsValid(s) && Enabled(s, e, c) && Prompt(s, e)
    requires Watched(s, id) && Total(c.next, s.tasks[id].schedule)
    requires var s' := Apply(s, e, c); id in s'.tasks && s'.tasks[id].enabled
    ensures Watched(Apply(s, e, c), id)
  {
    hide TickAll, Completed, Dispatches, Lists, DueIds, MissedIds;
    match e {
      case Check(_) => CheckWatches(s, e, c, id);
      case Finish(run, ok) =>
        var r := s.runs[run];
        CompletedAdvances(s.tasks[r.id], r.phase.start, s.clock, ok, c.next);
      case _ =>
    }
  }

  /** A watched deadline is never a second overdue. */
  lemma WatchedInTime(s: State, id: string)
    requires Watched(s, id) && !s.loop.Exited?
    ensures s.clock < s.tasks[id].nextRun + SECOND
  {
  }

  /** A run in which the loop is prompt and task `id` stays enabled. */
  ghost predicate StaysEnabled(states: seq<State>, events: seq<Event>, c: Config, id: string) {
    IsRun(states, events, c) &&
    (forall i :: 0 <= i < |events| ==> Prompt(states[i], events[i])) &&
    (forall i :: 0 <= i < |states| ==> id in states[i].tasks && states[i].tasks[id].enabled)
  }

  lemma {:induction false} RunWatches(states: seq<State>, events: seq<Event>, c: Config, id: string, n: nat)
    requires StaysEnabled(states, events, c, id) && Later(c.next) && Inv(states[0], c) && n < |states|
    requires Watched(states[0], id) && Total(c.next, states[0].tasks[id].schedule)
    ensures Watched(states[n], id) && states[n].tasks[id].schedule == states[0].tasks[id].schedule
    ensures RunsValid(states[n])
  {
    hide Inv, Enabled, Apply, Watched, RunsValid, Prompt;
    RunInv(states, events, c, n);
    InvParts(states[n], c);
    if n > 0 {
      RunWatches(states, events, c, id, n - 1);
      StepWatches(states[n - 1], events[n - 1], c, id);
      RunDeadlines(states, events, c, 0, n, id);
    }
  }

  /** Bounded lateness. From a catch-up or a check on, while task `id` stays enabled and the loop
      is alive, its deadline is never a second overdue; a check that hands a deadline out does so
      less than a second after it; and the deadline changes only by being handed out, or because a
      run of the same task that started at or after it has ended. */
  lemma BoundedLateness(states: seq<State>, events: seq<Event>, c: Config, id: string, n: nat)
    requires StaysEnabled(states, events, c, id) && Later(c.next) && Inv(states[0], c) && n < |events|
    requires Watched(states[0], id) && Total(c.next, states[0].tasks[id].schedule)
    ensures var s, s', e := states[n], states[n + 1], events[n];
      var deadline := s.tasks[id].nextRun;
      && (s.loop.Exited? || s.clock < deadline + SECOND)
      && (e.Check? && id in e.due ==> deadline <= s.clock < deadline + SECOND)
      && (s'.tasks[id].nextRun != deadline ==>
            (e.Check? && id in e.due) ||
            (e.Finish? && s.runs[e.run].id == id && s.runs[e.run].phase.Running? && s.runs[e.run].phase.start >= deadline))
  {
    var s, e := states[n], events[n];
    RunWatches(states, events, c, id, n);
    assert Enabled(s, e, c) && states[n + 1] == Apply(s, e, c);
    hide Inv, IsRun;
    if !s.loop.Exited? { WatchedInTime(s, id); }
    ChangeOfDeadline(s, e, c, id);
  }

  lemma ChangeOfDeadline(s: State, e: Event, c: Config, id: string)
    requires Later(c.next) && Enabled(s, e, c) && RunsValid(s) && id in s.tasks && Watched(s, id)
    ensures id in Apply(s, e, c).tasks
    ensures Apply(s, e, c).tasks[id].nextRun != s.tasks[id].nextRun ==>
      (e.Check? && id in e.due) ||
      (e.Finish? && s.runs[e.run].id == id && s.runs[e.run].phase.start >= s.tasks[id].nextRun)
    ensures e.Check? && id in e.due ==> s.tasks[id].nextRun <= s.clock
  {
  }

  // ---------- tasks that are new to the loop ----------

  /** A loop that sleeps does so for a minute at most. */
  predicate SleepsShort(s: State) {
    s.loop.Sleeping? ==> s.clock <= s.loop.wake <= s.clock + MINUTE
  }

  /** The loop is going to check by a minute after `t`. */
  predicate Expected(s: State, t: int) {
    match s.loop
    case Off => false
    case Sleeping(wake) => t <= s.clock <= wake <= t + MINUTE
    case Checking => t <= s.clock <= t + MINUTE
    case Exited => true
    case _ => s.clock == t
  }

  lemma StepSleepsShort(s: State, e: Event, c: Config)
    requires Enabled(s, e, c) && Prompt(s, e) && SleepsShort(s)
    ensures SleepsShort(Apply(s, e, c))
  {
    hide TickAll, Completed, Dispatches, Lists, DueIds, MissedIds;
  }

  lemma StepExpected(s: State, e: Event, c: Config, t: int)
    requires Enabled(s, e, c) && Prompt(s, e) && Expected(s, t) && !e.Check? && !e.CatchUp?
    ensures Expected(Apply(s, e, c), t)
  {
    hide TickAll, Completed, Dispatches, Lists, DueIds, MissedIds;
  }

  /** In every run with a prompt loop it sleeps for a minute at most. */
  lemma {:induction false} RunSleepsShort(states: seq<State>, events: seq<Event>, c: Config, n: nat)
    requires IsRun(states, events, c) && SleepsShort(states[0]) && n < |states|
    requires forall i :: 0 <= i < n ==> Prompt(states[i], events[i])
    ensures SleepsShort(states[n])
  {
    hide SleepsShort, Enabled, Apply, Prompt;
    if n > 0 {
      RunSleepsShort(states, events, c, n - 1);
      StepSleepsShort(states[n - 1], events[n - 1], c);
    }
  }

  /** A task that is there when the run begins is watched from the first check on. */
  lemma {:induction false} ExpectedThenWatched(states: seq<State>, events: seq<Event>, c: Config, id: string, n: nat)
    requires StaysEnabled(states, events, c, id) && Later(c.next) && Inv(states[0], c) && n < |states|
    requires SleepsShort(states[0]) && !states[0].loop.Off?
    requires states[0].tasks[id].nextRun != 0 && Total(c.next, states[0].tasks[id].schedule)
    ensures Watched(states[n], id) || Expected(states[n], states[0].clock)
    ensures (exists k :: 0 <= k < n && (events[k].Check? || events[k].CatchUp?)) ==> Watched(states[n], id)
  {
    if n > 0 {
      var s, e := states[n - 1], events[n - 1];
      ExpectedThenWatched(states, events, c, id, n - 1);
      RunInv(states, events, c, n - 1);
      InvParts(s, c);
      RunDeadlines(states, events, c, 0, n - 1, id);
      assert Enabled(s, e, c) && states[n] == Apply(s, e, c) && Prompt(s, e);
      assert states[n - 1].tasks[id].nextRun != 0 by { hide Inv, Enabled; InvParts(states[0], c); }
      hide Inv, IsRun, Enabled, Apply, Watched, Expected, RunsValid, Prompt;
      if e.Check? || e.CatchUp? {
        CheckWatches(s, e, c, id);
      } else if Watched(s, id) {
        StepWatches(s, e, c, id);
      } else {
        StepExpected(s, e, c, states[0].clock);
      }
    }
  }

  /** A task registered or enabled at whatever moment of a run with a prompt loop: as long as it stays
      enabled and the loop is alive, it is never more than a minute late, counted from its deadline or
      from that moment, and from the first check on it is watched. */
  lemma FirstDeadline(states: seq<State>, events: seq<Event>, c: Config, id: string, n: nat)
    requires StaysEnabled(states, events, c, id) && Later(c.next) && Inv(states[0], c) && n < |states|
    requires SleepsShort(states[0]) && !states[0].loop.Off?
    requires states[0].tasks[id].nextRun != 0 && Total(c.next, states[0].tasks[id].schedule)
    ensures states[n].loop.Exited? || states[n].clock < states[n].tasks[id].nextRun + SECOND ||
      states[n].clock <= states[0].clock + MINUTE
    ensures (exists k :: 0 <= k < n && (events[k].Check? || events[k].CatchUp?)) ==> Watched(states[n], id)
  {
    ExpectedThenWatched(states, events, c, id, n);
    hide Inv, StaysEnabled;
    if Watched(states[n], id) && !states[n].loop.Exited? { WatchedInTime(states[n], id); }
  }

  // ---------- how often the loop checks ----------

  /** The loop after a check at time `t`: it sleeps a second at least before it checks again. */
  predicate Rests(s: State, t: int) {
    s.clock >= t &&
    match s.loop
    case Launching(_, first) => !first
    case Delaying => true
    case Sleeping(wake) => wake >= t + SECOND
    case Checking => s.clock >= t + SECOND
    case Exited => true
    case _ => false
  }

  /** If it is prompt, it sleeps no longer than a minute. */
  predicate Returns(s: State, t: int) {
    match s.loop
    case Sleeping(wake) => s.clock <= wake <= t + MINUTE
    case Checking => s.clock <= t + MINUTE
    case Exited => true
    case _ => s.clock == t
  }

  lemma StepRests(s: State, e: Event, c: Config, t: int)
    requires Enabled(s, e, c) && (Rests(s, t) || (e.Check? && s.clock >= t))
    ensures Rests(Apply(s, e, c), t)
  {
    hide TickAll, Completed, Dispatches, Lists, DueIds, MissedIds;
  }

  lemma StepReturns(s: State, e: Event, c: Config, t: int)
    requires Enabled(s, e, c) && Prompt(s, e)
    requires if e.Check? then s.clock == t else Rests(s, t) && Returns(s, t)
    ensures Returns(Apply(s, e, c), t)
  {
    hide TickAll, Completed, Dispatches, Lists, DueIds, MissedIds;
  }

  /** The loop is prompt, and makes no check between `i` and `j`. */
  ghost predicate PromptUntil(states: seq<State>, events: seq<Event>, i: nat, j: nat)
    requires j <= |events| < |states|
  {
    forall k :: i <= k < j ==> Prompt(states[k], events[k]) && (k > i ==> !events[k].Check?)
  }

  lemma {:induction false} RestsAfter(states: seq<State>, events: seq<Event>, c: Config, i: nat, j: nat)
    requires IsRun(states, events, c) && i < j < |states| && events[i].Check?
    ensures Rests(states[j], states[i].clock)
    ensures PromptUntil(states, events, i, j) ==> Returns(states[j], states[i].clock)
  {
    hide Rests, Returns, Enabled, Apply, Prompt;
    if i + 1 < j { RestsAfter(states, events, c, i, j - 1); }
    StepRests(states[j - 1], events[j - 1], c, states[i].clock);
    if PromptUntil(states, events, i, j) { StepReturns(states[j - 1], events[j - 1], c, states[i].clock); }
  }

  /** In every interleaving two checks are at least a second apart; and a prompt loop, as long as it
      checks at all, checks at least once a minute. */
  lemma CheckSpacing(states: seq<State>, events: seq<Event>, c: Config, i: nat, j: nat)
    requires IsRun(states, events, c) && i < j < |events| && events[i].Check? && events[j].Check?
    ensures states[j].clock >= states[i].clock + SECOND
    ensures PromptUntil(states, events, i, j) ==> states[j].clock <= states[i].clock + MINUTE
  {
    RestsAfter(states, events, c, i, j);
    assert Enabled(states[j], events[j], c);
  }
}

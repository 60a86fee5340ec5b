/** The scheduler as a step system: the tasks under the lock, the loop, the runs in flight and a
    nondecreasing clock. One event is one stretch of code that runs under the lock, or one move of
    a goroutine; any order of enabled events is an interleaving. */
module SchedulerModel {
  import opened Durations
  import opened Text

  /** `nextScheduledTime` in the scheduler's zone: the next time of a schedule after an instant. */
  type Clockwork = (string, int) -> Option<int>

  /** A next time lies strictly after the instant asked about. */
  ghost predicate Later(next: Clockwork) {
    forall schedule, now :: next(schedule, now).Some? ==> next(schedule, now).value > now
  }

  /** The schedule has a next time from every instant. */
  ghost predicate Total(next: Clockwork, schedule: string) {
    forall now :: next(schedule, now).Some?
  }

  // ---------- one task ----------

  datatype Status = Never | Success | Failed

  /** The fields of a task that the loop and the runs read and write. `nextRun` 0 is unset. */
  datatype Task = Task(schedule: string, enabled: bool, nextRun: int, lastRun: int, status: Status,
                       runCount: int, failCount: int)

  predicate Due(t: Task, now: int) {
    t.enabled && t.nextRun != 0 && t.nextRun <= now
  }

  /** A due task's deadline moves on before the run is dispatched; without a next time it stays. */
  function Ticked(t: Task, now: int, next: Clockwork): Task {
    if !Due(t, now) then t
    else match next(t.schedule, now) case Some(n) => t.(nextRun := n) case None => t
  }

  /** `estimateNextRun`. */
  function Estimate(schedule: string, now: int, next: Clockwork): int {
    match next(schedule, now) case Some(n) => n case None => now + HOUR
  }

  /** The end of `executeTask`: a run that started at `start` ends at `now`. */
  function Completed(t: Task, start: int, now: int, ok: bool, next: Clockwork): Task {
    var counted := if ok then t.(status := Success, runCount := t.runCount + 1)
                   else t.(status := Failed, failCount := t.failCount + 1);
    var nextRun := if t.nextRun == 0 || t.nextRun <= start then Estimate(t.schedule, now, next) else t.nextRun;
    counted.(lastRun := start, nextRun := nextRun)
  }

  // ---------- all tasks ----------

  type Tasks = map<string, Task>

  function TickAll(tasks: Tasks, now: int, next: Clockwork): (r: Tasks)
    ensures r.Keys == tasks.Keys
  {
    map id | id in tasks :: Ticked(tasks[id], now, next)
  }

  /** The tasks a check dispatches. */
  function DueIds(tasks: Tasks, now: int): set<string> {
    set id | id in tasks && Due(tasks[id], now)
  }

  /** The tasks the catch-up dispatches: missed by no more than the window. */
  function MissedIds(tasks: Tasks, now: int, window: int): set<string> {
    set id | id in tasks && Due(tasks[id], now) && now - tasks[id].nextRun <= window
  }

  /** `due` lists the set once each, in some order: map iteration has none. */
  ghost predicate Lists(due: seq<string>, ids: set<string>) {
    (forall i :: 0 <= i < |due| ==> due[i] in ids) &&
    (forall id :: id in ids ==> id in due) &&
    (forall i, j :: 0 <= i < j < |due| ==> due[i] != due[j])
  }

  /** `delay` is the one `nextDelay` computes: up to the first deadline of an enabled task, but
      between a second and a minute. */
  ghost predicate IsDelay(delay: int, tasks: Tasks, now: int) {
    SECOND <= delay <= MINUTE &&
    (forall id :: id in tasks && tasks[id].enabled && tasks[id].nextRun != 0 ==>
      delay <= SECOND || now + delay <= tasks[id].nextRun) &&
    (delay == MINUTE || exists id :: id in tasks && tasks[id].enabled && tasks[id].nextRun != 0 && tasks[id].nextRun <= now + delay)
  }

  // ---------- the whole scheduler ----------

  datatype Phase = Spawned | Running(start: int) | Finished

  datatype Run = Run(id: string, tracked: bool, phase: Phase)

  datatype Loop =
    | Off
    | CatchingUp
    | Launching(due: seq<string>, first: bool)
    | Checking
    | Delaying
    | Sleeping(wake: int)
    | Exited

  /** A deadline handed out for a run, and when. */
  datatype Dispatch = Dispatch(id: string, deadline: int, at: int, tick: bool)

  /** `log` and `launched` record history: the deadlines handed out and the launches made for them. */
  datatype State = State(clock: int, tasks: Tasks, cancelled: bool, wait: int, loop: Loop, lastCheck: int,
                         runs: map<nat, Run>, nextId: nat, log: seq<Dispatch>, launched: seq<string>)

  datatype Config = Config(next: Clockwork, window: int)

  datatype Event =
    | Pass(time: nat)
    | Start
    | CatchUp(due: seq<string>)
    | LaunchNext
    | Check(due: seq<string>)
    | SetTimer(delay: int)
    | Wake
    | Exit
    | RunNow(id: string)
    | Begin(run: nat)
    | Finish(run: nat, ok: bool)
    | Done(run: nat)
    | Enable(id: string)
    | Disable(id: string)
    | Register(id: string, task: Task)
    | Cancel

  predicate IsStarted(s: State) { !s.loop.Off? }

  /** When an event can happen. */
  ghost predicate Enabled(s: State, e: Event, c: Config) {
    match e
    case Pass(_) => true
    case Start => s.loop.Off?
    case CatchUp(due) => s.loop.CatchingUp? && Lists(due, MissedIds(s.tasks, s.clock, c.window))
    case LaunchNext => s.loop.Launching? && (forall i :: 0 <= i < |s.loop.due| ==> s.loop.due[i] in s.tasks)
    case Check(due) => s.loop.Checking? && Lists(due, DueIds(s.tasks, s.clock))
    case SetTimer(delay) => s.loop.Delaying? && IsDelay(delay, s.tasks, s.clock)
    case Wake => s.loop.Sleeping? && s.clock >= s.loop.wake
    case Exit => s.loop.Sleeping? && s.cancelled
    case RunNow(id) => id in s.tasks
    case Begin(run) => run in s.runs && s.runs[run].phase.Spawned?
    case Finish(run, _) => run in s.runs && s.runs[run].phase.Running? && s.runs[run].id in s.tasks
    case Done(run) => run in s.runs && s.runs[run].phase.Finished?
    case Enable(id) => id in s.tasks
    case Disable(id) => id in s.tasks
    case Register(id, task) => id !in s.tasks
    case Cancel => true
  }

  /** The deadlines handed out for `due`. */
  function Dispatches(due: seq<string>, tasks: Tasks, at: int, tick: bool): (r: seq<Dispatch>)
    requires forall i :: 0 <= i < |due| ==> due[i] in tasks
    ensures |r| == |due|
    ensures forall i :: 0 <= i < |r| ==> r[i] == Dispatch(due[i], tasks[due[i]].nextRun, at, tick)
  {
    if due == [] then []
    else [Dispatch(due[0], tasks[due[0]].nextRun, at, tick)] + Dispatches(due[1..], tasks, at, tick)
  }

  /** `launchTask`: the run is tracked by the wait counter once the scheduler has started. */
  function Launch(s: State, id: string): State {
    var tracked := IsStarted(s);
    s.(runs := s.runs[s.nextId := Run(id, tracked, Spawned)], nextId := s.nextId + 1,
       wait := if tracked then s.wait + 1 else s.wait)
  }

  ghost function Apply(s: State, e: Event, c: Config): State
    requires Enabled(s, e, c)
  {
    match e
    case Pass(time) => s.(clock := s.clock + time)
    case Start => s.(loop := CatchingUp, wait := s.wait + 1)
    case CatchUp(due) =>
      s.(tasks := TickAll(s.tasks, s.clock, c.next), loop := Launching(due, true),
         log := s.log + Dispatches(due, s.tasks, s.clock, false), lastCheck := s.clock)
    case LaunchNext =>
      if s.loop.due == [] then s.(loop := if s.loop.first then Checking else Delaying)
      else Launch(s.(loop := Launching(s.loop.due[1..], s.loop.first), launched := s.launched + [s.loop.due[0]]),
                  s.loop.due[0])
    case Check(due) =>
      s.(tasks := TickAll(s.tasks, s.clock, c.next), loop := Launching(due, false),
         log := s.log + Dispatches(due, s.tasks, s.clock, true), lastCheck := s.clock)
    case SetTimer(delay) => s.(loop := Sleeping(s.clock + delay))
    case Wake => s.(loop := Checking)
    case Exit => s.(loop := Exited, wait := s.wait - 1)
    case RunNow(id) => Launch(s, id)
    case Begin(run) => s.(runs := s.runs[run := s.runs[run].(phase := Running(s.clock))])
    case Finish(run, ok) =>
      var r := s.runs[run];
      s.(tasks := s.tasks[r.id := Completed(s.tasks[r.id], r.phase.start, s.clock, ok, c.next)],
         runs := s.runs[run := r.(phase := Finished)])
    case Done(run) => s.(runs := s.runs - {run}, wait := if s.runs[run].tracked then s.wait - 1 else s.wait)
    case Enable(id) => s.(tasks := s.tasks[id := s.tasks[id].(enabled := true)])
    case Disable(id) => s.(tasks := s.tasks[id := s.tasks[id].(enabled := false)])
    case Register(id, task) => s.(tasks := s.tasks[id := task])
    case Cancel => s.(cancelled := true)
  }

  // ---------- runs ----------

  /** Nothing has happened yet; the clock is past Go's zero time. */
  predicate Initial(s: State) {
    s.clock > 0 && s.tasks == map[] && !s.cancelled && s.wait == 0 && s.loop == Off && s.runs == map[] &&
    s.nextId == 0 && s.log == [] && s.launched == []
  }

  /** The states of a run: the first is given, each next one follows by an enabled event. */
  ghost predicate IsRun(states: seq<State>, events: seq<Event>, c: Config) {
    |states| == |events| + 1 &&
    forall i :: 0 <= i < |events| ==> Enabled(states[i], events[i], c) && states[i + 1] == Apply(states[i], events[i], c)
  }
}

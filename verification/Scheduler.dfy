/** The scheduler's objects: tasks that several goroutines share, and the methods that change
    them under the lock, each tied to the step of `SchedulerModel` that it takes. */
module Scheduler {
  import opened Durations
  import opened Text
  import opened SchedulerModel

  /** A registered task; the map, the loop and the runs in flight all hold the same object. */
  class TaskObject {
    const id: string
    var schedule: string
    var enabled: bool
    var nextRun: int
    var lastRun: int
    var status: Status
    var runCount: int
    var failCount: int

    constructor (id: string, schedule: string, enabled: bool, nextRun: int)
      ensures this.id == id && State() == Task(schedule, enabled, nextRun, 0, Never, 0, 0)
    {
      this.id, this.schedule, this.enabled, this.nextRun := id, schedule, enabled, nextRun;
      lastRun, status, runCount, failCount := 0, Never, 0, 0;
    }

    function State(): Task
      reads this
    {
      Task(schedule, enabled, nextRun, lastRun, status, runCount, failCount)
    }
  }

  /** What `loadTaskState` found: the stored row, if there is one that could be read. */
  type Stored = Option<Task>

  class SchedulerObject {
    const next: Clockwork
    const window: int
    var tasks: map<string, TaskObject>
    var started: bool
    /** The counter of the wait group. */
    var wait: int
    /** The goroutines that `launchTask` has started: the task and whether the run is tracked. */
    var launched: seq<(TaskObject, bool)>

    constructor (next: Clockwork, window: int)
      ensures Valid() && Abs() == map[] && !started && wait == 0 && launched == []
      ensures this.next == next && this.window == window
    {
      this.next, this.window := next, window;
      tasks, started, wait, launched := map[], false, 0, [];
    }

    /** Every task is filed under its own identifier, so no two entries share an object. */
    ghost predicate Valid()
      reads this
    {
      forall id :: id in tasks ==> tasks[id].id == id
    }

    ghost function Objects(): set<TaskObject>
      reads this
    {
      set id | id in tasks :: tasks[id]
    }

    /** The tasks as values. */
    ghost function Abs(): Tasks
      reads this, Objects()
    {
      map id | id in tasks :: tasks[id].State()
    }

    /** `Register`. An empty identifier is refused; otherwise the stored state, if any, replaces the
        given one, a schedule without a next time becomes hourly, and an unset deadline is set. */
    method Register(task: TaskObject, stored: Stored, now: int) returns (ok: bool)
      requires Valid()
      modifies this`tasks, task
      ensures Valid() && ok == (task.id != "")
      ensures !ok ==> tasks == old(tasks) && task.State() == old(task.State())
      ensures ok ==> tasks == old(tasks)[task.id := task]
      ensures ok ==> task.State() == Registered(match stored case None => old(task.State()) case Some(t) => t, now, next)
    {
      if task.id == "" { return false; }
      match stored {
        case None =>
        case Some(t) =>
          task.schedule, task.enabled, task.nextRun := t.schedule, t.enabled, t.nextRun;
          task.lastRun, task.status := t.lastRun, t.status;
          task.runCount, task.failCount := t.runCount, t.failCount;
      }
      if task.schedule == "" { task.schedule := "@hourly"; }
      var time := next(task.schedule, now);
      if time.None? {
        task.schedule := "@hourly";
        time := next(task.schedule, now);
      }
      if task.nextRun == 0 && time.Some? { task.nextRun := time.value; }
      tasks := tasks[task.id := task];
      return true;
    }

    /** The body both loops share: a due task's deadline moves on. */
    method AdvanceDeadline(task: TaskObject, now: int) returns (isDue: bool)
      modifies task
      ensures isDue == Due(old(task.State()), now)
      ensures task.State() == Ticked(old(task.State()), now, next)
      ensures isDue <==> old(task.enabled) && old(task.nextRun) != 0 && old(task.nextRun) <= now
      ensures task.nextRun == if isDue && next(old(task.schedule), now).Some? then next(old(task.schedule), now).value
                              else old(task.nextRun)
    {
      if !task.enabled || task.nextRun == 0 || task.nextRun > now { return false; }
      var time := next(task.schedule, now);
      if time.Some? { task.nextRun := time.value; }
      return true;
    }

    /** The locked part of `checkTasks`: due deadlines move on, and the due tasks are collected. */
    method CollectDue(now: int) returns (due: seq<string>)
      requires Valid()
      modifies Objects()
      ensures Abs() == TickAll(old(Abs()), now, next)
      ensures Lists(due, DueIds(old(Abs()), now))
      ensures forall id :: id in tasks ==>
        (tasks[id].nextRun ==
           if old(tasks[id].enabled) && old(tasks[id].nextRun) != 0 && old(tasks[id].nextRun) <= now &&
              next(old(tasks[id].schedule), now).Some?
           then next(old(tasks[id].schedule), now).value else old(tasks[id].nextRun))
      ensures forall id :: id in tasks ==> (id in due <==>
        old(tasks[id].enabled) && old(tasks[id].nextRun) != 0 && old(tasks[id].nextRun) <= now)
    {
      hide Lists, Ticked, Due;
      due := [];
      var todo := tasks.Keys;
      ghost var before := Abs();
      ghost var ids := DueIds(before, now);
      ListsStart(ids, todo);
      while todo != {}
        invariant todo <= tasks.Keys
        invariant forall id :: id in tasks && id in todo ==> tasks[id].State() == before[id]
        invariant forall id :: id in tasks && id !in todo ==> tasks[id].State() == Ticked(before[id], now, next)
        invariant Lists(due, ids - todo)
        decreases todo
      {
        var id :| id in todo;
        ListsNext(due, ids, todo, id);
        todo := todo - {id};
        var isDue := AdvanceDeadline(tasks[id], now);
        if isDue { due := due + [id]; }
      }
      assert ids - todo == ids;
      assert Abs() == TickAll(before, now, next);
      MovedDeadlines(before, now, next);
      DueListed(due, before, now);
      assert forall id :: id in tasks ==> tasks[id].nextRun == Abs()[id].nextRun;
    }

    /** The locked part of `catchUpMissedTasks`: deadlines move on as in a check, but only the
        tasks missed within the window are collected. */
    method CollectMissed(now: int) returns (due: seq<string>)
      requires Valid()
      modifies Objects()
      ensures Abs() == TickAll(old(Abs()), now, next)
      ensures Lists(due, MissedIds(old(Abs()), now, window))
      ensures forall id :: id in tasks ==>
        (tasks[id].nextRun ==
           if old(tasks[id].enabled) && old(tasks[id].nextRun) != 0 && old(tasks[id].nextRun) <= now &&
              next(old(tasks[id].schedule), now).Some?
           then next(old(tasks[id].schedule), now).value else old(tasks[id].nextRun))
      ensures forall id :: id in tasks ==> (id in due <==>
        old(tasks[id].enabled) && old(tasks[id].nextRun) != 0 && old(tasks[id].nextRun) <= now && now - old(tasks[id].nextRun) <= window)
    {
      hide Lists, Ticked, Due;
      due := [];
      var todo := tasks.Keys;
      ghost var before := Abs();
      ghost var ids := MissedIds(before, now, window);
      ListsStart(ids, todo);
      while todo != {}
        invariant todo <= tasks.Keys
        invariant forall id :: id in tasks && id in todo ==> tasks[id].State() == before[id]
        invariant forall id :: id in tasks && id !in todo ==> tasks[id].State() == Ticked(before[id], now, next)
        invariant Lists(due, ids - todo)
        decreases todo
      {
        var id :| id in todo;
        ListsNext(due, ids, todo, id);
        todo := todo - {id};
        var missedWithinWindow := now - tasks[id].nextRun <= window;
        var isDue := AdvanceDeadline(tasks[id], now);
        if isDue && missedWithinWindow { due := due + [id]; }
      }
      assert ids - todo == ids;
      assert Abs() == TickAll(before, now, next);
      MovedDeadlines(before, now, next);
      MissedListed(due, before, now, window);
      assert forall id :: id in tasks ==> tasks[id].nextRun == Abs()[id].nextRun;
    }

    /** `launchTask`: one goroutine more, counted when the scheduler has started. */
    method LaunchTask(task: TaskObject)
      modifies this`wait, this`launched
      ensures launched == old(launched) + [(task, started)]
      ensures wait == old(wait) + if started then 1 else 0
    {
      var tracked := started;
      if tracked { wait := wait + 1; }
      launched := launched + [(task, tracked)];
    }

    /** The deferred `Done` of a run that has ended, or of the loop, which always counts. */
    method Done(tracked: bool)
      modifies this`wait
      ensures wait == old(wait) - if tracked then 1 else 0
    {
      if tracked { wait := wait - 1; }
    }

    /** `checkTasks`: collect under the lock, then launch. */
    method CheckTasks(now: int) returns (due: seq<string>)
      requires Valid()
      modifies this`wait, this`launched, Objects()
      ensures Abs() == TickAll(old(Abs()), now, next) && Lists(due, DueIds(old(Abs()), now))
      ensures forall id :: id in tasks ==>
        (tasks[id].nextRun ==
           if old(tasks[id].enabled) && old(tasks[id].nextRun) != 0 && old(tasks[id].nextRun) <= now &&
              next(old(tasks[id].schedule), now).Some?
           then next(old(tasks[id].schedule), now).value else old(tasks[id].nextRun))
      ensures forall id :: id in tasks ==> (id in due <==>
        old(tasks[id].enabled) && old(tasks[id].nextRun) != 0 && old(tasks[id].nextRun) <= now)
      ensures |launched| == |old(launched)| + |due| && old(launched) <= launched
      ensures forall i :: 0 <= i < |due| ==> due[i] in tasks && launched[|old(launched)| + i] == (tasks[due[i]], started)
      ensures wait == old(wait) + if started then |due| else 0
    {
      hide Lists, TickAll;
      due := CollectDue(now);
      ListedKeys(due, DueIds(old(Abs()), now), tasks.Keys);
      LaunchAll(due);
    }

    method LaunchAll(due: seq<string>)
      requires forall i :: 0 <= i < |due| ==> due[i] in tasks
      modifies this`wait, this`launched
      ensures |launched| == |old(launched)| + |due| && old(launched) <= launched
      ensures forall i :: 0 <= i < |due| ==> launched[|old(launched)| + i] == (tasks[due[i]], started)
      ensures wait == old(wait) + if started then |due| else 0
    {
      for i := 0 to |due|
        invariant |launched| == |old(launched)| + i && old(launched) <= launched
        invariant forall k :: 0 <= k < i ==> launched[|old(launched)| + k] == (tasks[due[k]], started)
        invariant wait == old(wait) + if started then i else 0
      {
        LaunchTask(tasks[due[i]]);
      }
    }

    /** `catchUpMissedTasks`: the same with the tasks missed within the window. */
    method CatchUpMissedTasks(now: int) returns (due: seq<string>)
      requires Valid()
      modifies this`wait, this`launched, Objects()
      ensures Abs() == TickAll(old(Abs()), now, next) && Lists(due, MissedIds(old(Abs()), now, window))
      ensures forall id :: id in tasks ==>
        (tasks[id].nextRun ==
           if old(tasks[id].enabled) && old(tasks[id].nextRun) != 0 && old(tasks[id].nextRun) <= now &&
              next(old(tasks[id].schedule), now).Some?
           then next(old(tasks[id].schedule), now).value else old(tasks[id].nextRun))
      ensures forall id :: id in tasks ==> (id in due <==>
        old(tasks[id].enabled) && old(tasks[id].nextRun) != 0 && old(tasks[id].nextRun) <= now &&
        now - old(tasks[id].nextRun) <= window)
      ensures |launched| == |old(launched)| + |due| && old(launched) <= launched
      ensures forall i :: 0 <= i < |due| ==> due[i] in tasks && launched[|old(launched)| + i] == (tasks[due[i]], started)
      ensures wait == old(wait) + if started then |due| else 0
    {
      hide Lists, TickAll;
      due := CollectMissed(now);
      ListedKeys(due, MissedIds(old(Abs()), now, window), tasks.Keys);
      LaunchAll(due);
    }

    /** `Start`: the loop is reserved in the wait counter before the missed tasks are caught up; a
        second call changes nothing. */
    method Start(now: int) returns (due: seq<string>)
      requires Valid()
      modifies this`started, this`wait, this`launched, Objects()
      ensures started
      ensures old(started) ==> due == [] && wait == old(wait) && launched == old(launched) && Abs() == old(Abs())
      ensures !old(started) ==>
        Abs() == TickAll(old(Abs()), now, next) && Lists(due, MissedIds(old(Abs()), now, window)) &&
        wait == old(wait) + 1 + |due| && |launched| == |old(launched)| + |due| && old(launched) <= launched &&
        (forall i :: 0 <= i < |due| ==> due[i] in tasks && launched[|old(launched)| + i] == (tasks[due[i]], true))
      ensures !old(started) ==> forall id :: id in tasks ==>
        (tasks[id].nextRun ==
           if old(tasks[id].enabled) && old(tasks[id].nextRun) != 0 && old(tasks[id].nextRun) <= now &&
              next(old(tasks[id].schedule), now).Some?
           then next(old(tasks[id].schedule), now).value else old(tasks[id].nextRun))
      ensures !old(started) ==> forall id :: id in tasks ==> (id in due <==>
        old(tasks[id].enabled) && old(tasks[id].nextRun) != 0 && old(tasks[id].nextRun) <= now && now - old(tasks[id].nextRun) <= window)
    {
      hide Lists, TickAll;
      if started { return []; }
      started := true;
      wait := wait + 1;
      assert Abs() == old(Abs());
      due := CatchUpMissedTasks(now);
    }

    /** The locked end of `executeTask`, on the task object the run was launched with. */
    method FinishRun(task: TaskObject, startTime: int, ok: bool, now: int)
      modifies task
      ensures task.State() == Completed(old(task.State()), startTime, now, ok, next)
      ensures task.runCount == old(task.runCount) + (if ok then 1 else 0) && task.status == if ok then Success else Failed
      ensures task.failCount == old(task.failCount) + (if ok then 0 else 1) && task.lastRun == startTime
      ensures task.nextRun == if old(task.nextRun) != 0 && old(task.nextRun) > startTime then old(task.nextRun)
                              else if next(old(task.schedule), now).Some? then next(old(task.schedule), now).value
                              else now + 3_600_000_000_000
    {
      task.lastRun := startTime;
      if ok {
        task.status := Success;
        task.runCount := task.runCount + 1;
      } else {
        task.status := Failed;
        task.failCount := task.failCount + 1;
      }
      if task.nextRun == 0 || task.nextRun <= startTime {
        var time := next(task.schedule, now);
        task.nextRun := if time.Some? then time.value else now + HOUR;
      }
    }

    /** `EnableTask` and `DisableTask`. */
    method SetEnabled(id: string, enabled: bool) returns (ok: bool)
      requires Valid()
      modifies Objects()
      ensures ok == (id in tasks)
      ensures Abs() == if ok then old(Abs())[id := old(Abs())[id].(enabled := enabled)] else old(Abs())
    {
      if id !in tasks { return false; }
      tasks[id].enabled := enabled;
      return true;
    }

    /** `nextDelay`: until the first deadline of an enabled task, at most a minute, at least a second. */
    method NextDelay(now: int) returns (delay: int)
      requires Valid()
      ensures IsDelay(delay, Abs(), now)
    {
      delay := MINUTE;
      var todo := tasks.Keys;
      while todo != {}
        invariant todo <= tasks.Keys && delay <= MINUTE
        invariant forall id :: id in Abs() && id !in todo && Abs()[id].enabled && Abs()[id].nextRun != 0 ==>
          now + delay <= Abs()[id].nextRun
        invariant delay == MINUTE ||
          exists id :: id in Abs() && Abs()[id].enabled && Abs()[id].nextRun != 0 && Abs()[id].nextRun == now + delay
        decreases todo
      {
        var id :| id in todo;
        todo := todo - {id};
        var task := tasks[id];
        if !task.enabled || task.nextRun == 0 { continue; }
        var remaining := task.nextRun - now;
        if remaining < delay {
          delay := remaining;
          assert Abs()[id].nextRun == now + delay;
        }
      }
      if delay < SECOND { return SECOND; }
    }
  }

  lemma MovedDeadlines(tasks: Tasks, now: int, next: Clockwork)
    ensures forall id :: id in tasks ==>
      (TickAll(tasks, now, next)[id].nextRun ==
         if tasks[id].enabled && tasks[id].nextRun != 0 && tasks[id].nextRun <= now && next(tasks[id].schedule, now).Some?
         then next(tasks[id].schedule, now).value else tasks[id].nextRun)
  {
  }

  lemma DueListed(due: seq<string>, tasks: Tasks, now: int)
    requires Lists(due, DueIds(tasks, now))
    ensures forall id :: id in tasks ==>
      (id in due <==> tasks[id].enabled && tasks[id].nextRun != 0 && tasks[id].nextRun <= now)
  {
  }

  lemma MissedListed(due: seq<string>, tasks: Tasks, now: int, window: int)
    requires Lists(due, MissedIds(tasks, now, window))
    ensures forall id :: id in tasks ==>
      (id in due <==>
        tasks[id].enabled && tasks[id].nextRun != 0 && tasks[id].nextRun <= now && now - tasks[id].nextRun <= window)
  {
  }

  lemma ListsStart(ids: set<string>, todo: set<string>)
    requires ids <= todo
    ensures Lists([], ids - todo)
  {
  }

  lemma ListedKeys(due: seq<string>, ids: set<string>, keys: set<string>)
    requires Lists(due, ids) && ids <= keys
    ensures forall i :: 0 <= i < |due| ==> due[i] in keys
  {
  }

  /** One more identifier looked at: listed if it belongs to the set, else passed over. */
  lemma ListsNext(due: seq<string>, ids: set<string>, todo: set<string>, id: string)
    requires Lists(due, ids - todo) && id in todo
    ensures if id in ids then Lists(due + [id], ids - (todo - {id})) else Lists(due, ids - (todo - {id}))
  {
    var rest := ids - (todo - {id});
    if id in ids {
      assert rest == (ids - todo) + {id};
      assert id !in due;
      assert id in due + [id];
      forall x | x in rest ensures x in due + [id] {}
    } else {
      assert rest == ids - todo;
    }
  }

  /** The state of a task after registration. */
  function Registered(t: Task, now: int, next: Clockwork): Task {
    var schedule := if t.schedule == "" || next(t.schedule, now).None? then "@hourly" else t.schedule;
    var time := next(schedule, now);
    t.(schedule := schedule, nextRun := if t.nextRun == 0 && time.Some? then time.value else t.nextRun)
  }
}

/** A timer, its state machine and the worker thread, as steps on one state:
    src/aio/timer.c, fsm.c, ctx.c, worker.c and queue.c.

    The thread that owns the timer and the worker thread meet in two places, the task
    queue of the worker (under its own mutex) and the context mutex.  Every function
    below is one stretch of code under one of the two; what happens between them, like
    popping a task or an expired timer before the context is entered, is a step of its
    own. */
module TimerModel {
  import opened Bytes

  // The state of grid_fsm (fsm.c:30-32) and of grid_timer (timer.c:33-35).
  datatype FsmState = Idle | Active | Stopping

  // start_task and stop_task.
  datatype Task = StartTask | StopTask

  // GRID_TIMER_TIMEOUT on the `done` event, GRID_TIMER_STOPPED on the `stopped` event.
  datatype Event = Timeout | Stopped

  // Where a call of grid_fsm_feed comes from.
  datatype Source = FromTask(task: Task) | FromTimer

  datatype Timer = Timer(
    fsm: FsmState,
    state: FsmState,
    timeout: int,
    armed: Option<int>,   // how long the handle in the timer set of the worker waits, if it is there
    tasks: seq<Task>,     // this timer's part of the worker's task queue
    batch: seq<Task>,     // the worker's private copy of that queue
    hand: Option<Task>,   // a task popped by the worker, before it enters the context
    expired: bool,        // the handle popped by the worker, before it enters the context
    events: seq<Event>)   // this timer's part of the event queue of the context

  // grid_timer_init.
  const INIT := Timer(Idle, Idle, -1, None, [], [], None, false, [])

  // ---------- Queues; None is a failed assertion ----------

  // grid_worker_execute: grid_queue_push asserts that the item is in no queue.
  function Execute(t: Timer, task: Task): Option<Timer> {
    if task in t.tasks || task in t.batch then None
    else Some(t.(tasks := t.tasks + [task]))
  }

  // grid_fsm_raise, likewise.
  function Raise(t: Timer, event: Event): Option<Timer> {
    if event in t.events then None else Some(t.(events := t.events + [event]))
  }

  // ---------- fsm.c and timer.c ----------

  predicate IsIdle(t: Timer) { t.fsm == Idle && Stopped !in t.events }

  // grid_timer_start, and grid_timer_handler on GRID_FSM_START.
  function Start(t: Timer, timeout: int): Option<Timer> {
    if timeout < 0 || !IsIdle(t) || t.state != Idle then None
    else
      var r := Execute(t.(timeout := timeout, state := Active), StartTask);
      if r == None then None else Some(r.value.(fsm := Active))
  }

  // grid_timer_stop, and grid_timer_shutdown on GRID_FSM_STOP.
  function Stop(t: Timer): Option<Timer> {
    if t.fsm != Active then Some(t)
    else Execute(t.(fsm := Stopping, state := Stopping), StopTask)
  }

  // grid_timer_handler on anything but GRID_FSM_START.
  function Handle(t: Timer, src: Source): Option<Timer> {
    if t.state != Active then None
    else
      match src
      case FromTask(StartTask) =>
        if t.timeout < 0 || t.armed.Some? then None else Some(t.(armed := Some(t.timeout), timeout := -1))
      case FromTask(StopTask) => None
      case FromTimer => if t.timeout != -1 then None else Raise(t, Timeout)
  }

  // grid_timer_shutdown on anything but GRID_FSM_STOP.
  function Shutdown(t: Timer, src: Source): Option<Timer> {
    if t.state != Stopping then None
    else if src != FromTask(StopTask) then Some(t)
    else
      var r := Raise(t.(armed := None, state := Idle), Stopped);
      if r == None then None else Some(r.value.(fsm := Idle))
  }

  // grid_fsm_feed.
  function Feed(t: Timer, src: Source): Option<Timer> {
    if t.fsm != Stopping then Handle(t, src) else Shutdown(t, src)
  }

  // ---------- The loop of grid_worker_routine ----------

  datatype WorkerStep =
    | TakeBatch   // worker.c:210-214, under the mutex of the task queue
    | PopTask     // worker.c:219
    | RunTask     // worker.c:238-241, under the context mutex
    | PopTimer    // worker.c:184-188
    | FeedTimer   // worker.c:189-191, under the context mutex

  // When the worker gets to a step.  Expired timers come first; a batch is taken when a
  // task has been signalled and run to the end before anything else.
  predicate CanWork(t: Timer, step: WorkerStep) {
    match step
    case TakeBatch => t.tasks != [] && t.batch == [] && t.hand == None && !t.expired
    case PopTask => t.batch != [] && t.hand == None
    case RunTask => t.hand.Some? && t.events == []
    case PopTimer => t.armed.Some? && t.batch == [] && t.hand == None && !t.expired
    case FeedTimer => t.expired && t.events == []
  }

  function Work(t: Timer, step: WorkerStep): Option<Timer>
    requires CanWork(t, step)
  {
    match step
    case TakeBatch => Some(t.(batch := t.tasks, tasks := []))
    case PopTask => Some(t.(hand := Some(t.batch[0]), batch := t.batch[1..]))
    case RunTask => Feed(t.(hand := None), FromTask(t.hand.value))
    case PopTimer => Some(t.(armed := None, expired := true))
    case FeedTimer => Feed(t.(expired := false), FromTimer)
  }

  // ---------- The invariant ----------

  // The tasks that are still to run, in order.
  function Pending(t: Timer): seq<Task> {
    (if t.hand == None then [] else [t.hand.value]) + t.batch + t.tasks
  }

  ghost predicate Inv(t: Timer) {
    && t.state == t.fsm
    && (t.expired ==> t.hand == None && t.batch == [] && t.armed == None)
    && match t.fsm
       case Idle => Pending(t) == [] && t.armed == None && !t.expired && (t.events == [] || t.events == [Stopped])
       case Active =>
         if Pending(t) == [StartTask] then t.armed == None && !t.expired && t.timeout >= 0 && t.events == []
         else Pending(t) == [] && t.timeout == -1 &&
              (t.events == [] || (t.events == [Timeout] && t.armed == None && !t.expired))
       case Stopping =>
         && t.events == []
         && (Pending(t) == [StopTask] || (Pending(t) == [StartTask, StopTask] && t.armed == None && !t.expired))
  }

  // How long the timer is going to wait, while its start is pending or its handle is set.
  function Wait(t: Timer): Option<int> {
    if StartTask in Pending(t) then Some(t.timeout) else t.armed
  }

  // A running timer that has not fired yet, and is going to.
  predicate Ticking(t: Timer) {
    t.fsm == Active && (Wait(t).Some? || t.expired || t.events == [Timeout])
  }

  lemma InitInv()
    ensures Inv(INIT)
  {
  }

  // Pushing behind the tasks that are pending.
  lemma ExecutePending(t: Timer, task: Task)
    requires task !in Pending(t)
    ensures Execute(t, task).Some?
    ensures Pending(Execute(t, task).value) == Pending(t) + [task]
  {
    assert forall x :: x in t.tasks || x in t.batch ==> x in Pending(t);
  }

  /** Starting fails an assertion exactly when the interval is negative or the timer is
      not idle. */
  lemma StartInv(t: Timer, timeout: int)
    requires Inv(t)
    ensures Start(t, timeout).Some? <==> timeout >= 0 && IsIdle(t)
    ensures Start(t, timeout).Some? ==>
      var r := Start(t, timeout).value;
      && Inv(r) && r.fsm == Active && r.events == [] && Pending(r) == [StartTask]
      && Wait(r) == Some(timeout) && Ticking(r)
  {
    if timeout >= 0 && IsIdle(t) {
      ExecutePending(t.(timeout := timeout, state := Active), StartTask);
    }
  }

  // Stopping never fails; asked for twice, it does nothing the second time.
  lemma StopInv(t: Timer)
    requires Inv(t) && t.events == []
    ensures Stop(t).Some? && Inv(Stop(t).value) && Stop(t).value.events == []
    ensures t.fsm == Active ==>
      var r := Stop(t).value;
      r.fsm == Stopping && Pending(r) == Pending(t) + [StopTask] && r.armed == t.armed && r.expired == t.expired
    ensures t.fsm != Active ==> Stop(t) == Some(t)
  {
    if t.fsm == Active {
      ExecutePending(t.(fsm := Stopping, state := Stopping), StopTask);
    }
  }

  lemma TakePending(t: Timer, step: WorkerStep)
    requires CanWork(t, step) && step != FeedTimer
    ensures step == RunTask ==>
      Pending(t) == [t.hand.value] + Pending(t.(hand := None))
    ensures step != RunTask ==> Work(t, step).Some? && Pending(Work(t, step).value) == Pending(t)
  {
    if step == PopTask {
      assert [t.batch[0]] + t.batch[1..] == t.batch;
    }
  }

  /** No step of the worker fails an assertion, each keeps the invariant, and each raises
      what it should: STOPPED when it runs the stop task, TIMEOUT when it feeds an expired
      handle of a running timer, nothing otherwise.  Until it takes the handle, it does not
      change how long a running timer waits, and the timer goes on ticking until it fires. */
  lemma WorkInv(t: Timer, step: WorkerStep)
    requires Inv(t) && CanWork(t, step)
    ensures Work(t, step).Some? && Inv(Work(t, step).value)
    ensures var r := Work(t, step).value;
      && (step == RunTask && t.hand == Some(StopTask) ==> r.fsm == Idle && r.events == [Stopped])
      && (step == FeedTimer && t.fsm == Active ==> r.fsm == Active && r.events == [Timeout])
      && (!(step == RunTask && t.hand == Some(StopTask)) && !(step == FeedTimer && t.fsm == Active) ==>
            r.fsm == t.fsm && r.events == t.events)
      && (t.fsm == Active && step != PopTimer && step != FeedTimer ==> Wait(r) == Wait(t))
      && (Ticking(t) ==> Ticking(r))
  {
    if step == FeedTimer {
      assert Pending(t) == t.tasks;
    } else {
      TakePending(t, step);
      if step == RunTask {
        assert Pending(t)[0] == t.hand.value;
        assert Pending(t)[1..] == Pending(t.(hand := None));
      }
    }
  }

  // ---------- What the owner sees ----------

  datatype Mark = MStart(timeout: int) | MTimeout | MStop | MStopped

  // The owner's view of one arming after the other:
  // MStart, at most one MTimeout, MStop, MStopped, and again.
  datatype Phase = Resting | Running(timeout: int, fired: bool) | Halting

  function Next(p: Phase, m: Mark): Option<Phase> {
    match (p, m)
    case (Resting, MStart(timeout)) => Some(Running(timeout, false))
    case (Running(timeout, false), MTimeout) => Some(Running(timeout, true))
    case (Running(_, _), MStop) => Some(Halting)
    case (Halting, MStopped) => Some(Resting)
    case (_, _) => None
  }

  function Follow(p: Phase, marks: seq<Mark>): Option<Phase>
    decreases |marks|
  {
    if marks == [] then Some(p)
    else
      var q := Next(p, marks[0]);
      if q == None then None else Follow(q.value, marks[1..])
  }

  lemma {:induction false} FollowStep(p: Phase, marks: seq<Mark>, m: Mark)
    requires Follow(p, marks).Some?
    ensures Follow(p, marks + [m]) == Next(Follow(p, marks).value, m)
    decreases |marks|
  {
    if marks == [] {
      assert [] + [m] == [m];
      assert Next(p, m).Some? ==> Follow(Next(p, m).value, [m][1..]) == Next(p, m);
    } else {
      assert (marks + [m])[1..] == marks[1..] + [m];
      FollowStep(Next(p, marks[0]).value, marks[1..], m);
    }
  }

  // A timer with any owner, which starts it and stops it between events, and with the
  // record of what passed between them.
  datatype Life = Life(timer: Timer, marks: seq<Mark>)

  datatype LifeStep = OwnerStart(timeout: int) | OwnerStop | WorkerRuns(step: WorkerStep) | Deliver

  // The owner's code runs when no event of the timer is queued: the worker raises one
  // only from inside the context and drains the queue before it leaves (ctx.c:57-64).
  predicate CanLive(l: Life, step: LifeStep) {
    match step
    case OwnerStart(_) => l.timer.events == []
    case OwnerStop => l.timer.events == []
    case WorkerRuns(w) => CanWork(l.timer, w)
    case Deliver => l.timer.events != []
  }

  function Live(l: Life, step: LifeStep): Option<Life>
    requires CanLive(l, step)
  {
    match step
    case OwnerStart(timeout) =>
      var r := Start(l.timer, timeout);
      if r == None then None else Some(Life(r.value, l.marks + [MStart(timeout)]))
    case OwnerStop =>
      var r := Stop(l.timer);
      if r == None then None
      else Some(Life(r.value, if l.timer.fsm == Active then l.marks + [MStop] else l.marks))
    case WorkerRuns(w) =>
      var r := Work(l.timer, w);
      if r == None then None else Some(Life(r.value, l.marks))
    case Deliver =>
      var m := if l.timer.events[0] == Timeout then MTimeout else MStopped;
      Some(Life(l.timer.(events := l.timer.events[1..]), l.marks + [m]))
  }

  ghost predicate LifeInv(l: Life) {
    && Inv(l.timer)
    && Follow(Resting, l.marks).Some?
    && match Follow(Resting, l.marks).value
       case Resting => IsIdle(l.timer)
       case Running(timeout, fired) =>
         && l.timer.fsm == Active
         && (fired <==> !Ticking(l.timer))
         && (Wait(l.timer).Some? ==> Wait(l.timer).value == timeout)
       case Halting => l.timer.fsm == Stopping || l.timer.events == [Stopped]
  }

  lemma LiveInv(l: Life, step: LifeStep)
    requires LifeInv(l) && CanLive(l, step)
    ensures Live(l, step).Some? <==> (step.OwnerStart? ==> step.timeout >= 0 && IsIdle(l.timer))
    ensures Live(l, step).Some? ==> LifeInv(Live(l, step).value)
  {
    match step
    case OwnerStart(timeout) =>
      StartInv(l.timer, timeout);
      FollowStep(Resting, l.marks, MStart(timeout));
    case OwnerStop =>
      StopInv(l.timer);
      FollowStep(Resting, l.marks, MStop);
    case WorkerRuns(w) =>
      WorkInv(l.timer, w);
      if l.timer.hand.Some? && w == RunTask { TakePending(l.timer, w); }
    case Deliver =>
      FollowStep(Resting, l.marks, MTimeout);
      FollowStep(Resting, l.marks, MStopped);
  }

  // A run is cut short where a step is not enabled or the owner starts a timer that is
  // not idle, or with a negative interval.
  predicate Fair(l: Life, steps: seq<LifeStep>)
    decreases |steps|
  {
    steps == [] ||
    (&& CanLive(l, steps[0])
     && (steps[0].OwnerStart? ==> steps[0].timeout >= 0 && IsIdle(l.timer))
     && (Live(l, steps[0]).Some? ==> Fair(Live(l, steps[0]).value, steps[1..])))
  }

  function Lives(l: Life, steps: seq<LifeStep>): Option<Life>
    requires Fair(l, steps)
    decreases |steps|
  {
    if steps == [] then Some(l)
    else
      var r := Live(l, steps[0]);
      if r == None then None else Lives(r.value, steps[1..])
  }

  /** In every run of a timer whose owner only starts it when it is idle and with an
      interval that is not negative: no assertion fails, so no task or event is queued
      twice; and what the owner sees is start, at most one timeout, stop, stopped, over
      and over, with no timeout after the stop, and with nothing of the arming left in
      the worker when stopped arrives. */
  lemma {:induction false} LivesWell(l: Life, steps: seq<LifeStep>)
    requires LifeInv(l) && Fair(l, steps)
    ensures Lives(l, steps).Some? && LifeInv(Lives(l, steps).value)
    decreases |steps|
  {
    if steps != [] {
      LiveInv(l, steps[0]);
      LivesWell(Live(l, steps[0]).value, steps[1..]);
    }
  }

  lemma LivesFromInit(steps: seq<LifeStep>)
    requires Fair(Life(INIT, []), steps)
    ensures Lives(Life(INIT, []), steps).Some?
    ensures var l := Lives(Life(INIT, []), steps).value;
      && Follow(Resting, l.marks).Some?
      && (Follow(Resting, l.marks) == Some(Resting) ==>
            Pending(l.timer) == [] && l.timer.armed == None && !l.timer.expired)
  {
    LivesWell(Life(INIT, []), steps);
  }

  // ---------- A stop is answered, and an interval comes to its end ----------

  // How far the worker is from having nothing left to do.
  function Rank(t: Timer): nat {
    5 * |t.tasks| + 4 * |t.batch| + (if t.hand.Some? then 3 else 0)
    + (if t.armed.Some? then 2 else 0) + (if t.expired then 1 else 0)
  }

  /** While a timer is stopping, or is running and has not fired, the worker always has a
      step to take, and every step it takes brings it closer to having none: the stop is
      answered and the timeout raised after at most Rank steps, however the worker schedules
      them. */
  lemma Progress(t: Timer)
    requires Inv(t) && t.events == [] && (t.fsm == Stopping || Ticking(t))
    ensures exists step :: CanWork(t, step)
    ensures forall step :: CanWork(t, step) ==> Work(t, step).Some? && Rank(Work(t, step).value) < Rank(t)
  {
    if t.expired {
      assert CanWork(t, FeedTimer);
    } else if t.hand.Some? {
      assert CanWork(t, RunTask);
    } else if t.batch != [] {
      assert CanWork(t, PopTask);
    } else if t.tasks != [] {
      assert CanWork(t, TakeBatch);
    } else {
      assert CanWork(t, PopTimer);
    }
    forall step | CanWork(t, step) ensures Work(t, step).Some? && Rank(Work(t, step).value) < Rank(t) {
      RankFalls(t, step);
    }
  }

  lemma RankFalls(t: Timer, step: WorkerStep)
    requires Inv(t) && CanWork(t, step)
    ensures Work(t, step).Some? && Rank(Work(t, step).value) < Rank(t)
  {
    hide Wait, Ticking;
    WorkInv(t, step);
  }

  lemma StoppingProgress(t: Timer)
    requires Inv(t) && t.fsm == Stopping
    ensures exists step :: CanWork(t, step)
    ensures forall step :: CanWork(t, step) ==> Work(t, step).Some? && Rank(Work(t, step).value) < Rank(t)
  {
    Progress(t);
  }

  /** A started timer that its owner leaves alone fires: as long as no timeout has been seen,
      there is one to deliver, or the worker has a step to take; each brings the timeout
      nearer. */
  lemma FiringProgress(l: Life)
    requires LifeInv(l) && Follow(Resting, l.marks).value.Running? && !Follow(Resting, l.marks).value.fired
    ensures l.timer.events == [Timeout] || (l.timer.events == [] && exists w :: CanLive(l, WorkerRuns(w)))
    ensures l.timer.events == [Timeout] ==>
      var r := Live(l, Deliver); r.Some? && r.value.marks == l.marks + [MTimeout]
    ensures forall w :: CanLive(l, WorkerRuns(w)) && l.timer.events == [] ==>
      var r := Live(l, WorkerRuns(w));
      && r.Some? && LifeInv(r.value) && r.value.marks == l.marks
      && Rank(r.value.timer) < Rank(l.timer)
  {
    if l.timer.events == [] {
      Progress(l.timer);
      var step :| CanWork(l.timer, step);
      assert CanLive(l, WorkerRuns(step));
    }
    forall w | CanLive(l, WorkerRuns(w)) && l.timer.events == []
      ensures var r := Live(l, WorkerRuns(w));
        && r.Some? && LifeInv(r.value) && r.value.marks == l.marks
        && Rank(r.value.timer) < Rank(l.timer)
    {
      LiveInv(l, WorkerRuns(w));
    }
  }
}

/** The timer object (src/aio/timer.c) with its parts of the worker's and the context's
    queues, updated in place as TimerModel says.  What the source asserts is required. */
module Timer {
  import opened Bytes
  import opened TimerModel

  class TimerObject {
    var fsm: FsmState
    var state: FsmState
    var timeout: int
    var armed: Option<int>
    var tasks: seq<Task>
    var batch: seq<Task>
    var hand: Option<Task>
    var expired: bool
    var events: seq<Event>

    function View(): TimerModel.Timer
      reads this
    {
      TimerModel.Timer(fsm, state, timeout, armed, tasks, batch, hand, expired, events)
    }

    // grid_timer_init.
    constructor ()
      ensures View() == TimerModel.INIT
    {
      fsm, state, timeout, armed, expired := Idle, Idle, -1, None, false;
      tasks, batch, hand, events := [], [], None, [];
    }

    // grid_worker_execute.
    method Execute(task: Task)
      requires TimerModel.Execute(View(), task).Some?
      modifies this`tasks
      ensures Some(View()) == TimerModel.Execute(old(View()), task)
    {
      assert task !in tasks && task !in batch;
      tasks := tasks + [task];
    }

    // grid_fsm_raise.
    method Raise(event: Event)
      requires TimerModel.Raise(View(), event).Some?
      modifies this`events
      ensures Some(View()) == TimerModel.Raise(old(View()), event)
    {
      assert event !in events;
      events := events + [event];
    }

    // grid_timer_start.
    method Start(interval: int)
      requires TimerModel.Start(View(), interval).Some?
      modifies this
      ensures Some(View()) == TimerModel.Start(old(View()), interval)
    {
      assert interval >= 0 && fsm == Idle;
      timeout := interval;
      state := Active;
      Execute(StartTask);
      fsm := Active;
    }

    // grid_timer_stop.
    method Stop()
      requires TimerModel.Stop(View()).Some?
      modifies this
      ensures Some(View()) == TimerModel.Stop(old(View()))
    {
      if fsm != Active { return; }
      fsm := Stopping;
      state := Stopping;
      Execute(StopTask);
    }

    // grid_timer_handler.
    method Handle(src: TimerModel.Source)
      requires TimerModel.Handle(View(), src).Some?
      modifies this
      ensures Some(View()) == TimerModel.Handle(old(View()), src)
    {
      if src == FromTimer {
        assert timeout == -1;
        Raise(Timeout);
      } else {
        assert src.task == StartTask && timeout >= 0;
        armed := Some(timeout);
        timeout := -1;
      }
    }

    // grid_timer_shutdown.
    method Shutdown(src: TimerModel.Source)
      requires TimerModel.Shutdown(View(), src).Some?
      modifies this
      ensures Some(View()) == TimerModel.Shutdown(old(View()), src)
    {
      if src != FromTask(StopTask) { return; }
      armed := None;
      state := Idle;
      Raise(Stopped);
      fsm := Idle;
    }

    // grid_fsm_feed.
    method Feed(src: TimerModel.Source)
      requires TimerModel.Feed(View(), src).Some?
      modifies this
      ensures Some(View()) == TimerModel.Feed(old(View()), src)
    {
      if fsm != Stopping { Handle(src); } else { Shutdown(src); }
    }

    /** A step of grid_worker_routine; no state of the invariant lets an assertion fail. */
    method Work(step: WorkerStep)
      requires Inv(View()) && CanWork(View(), step)
      modifies this
      ensures Some(View()) == TimerModel.Work(old(View()), step) && Inv(View())
    {
      WorkInv(View(), step);
      match step
      case TakeBatch =>
        batch := tasks;
        tasks := [];
      case PopTask =>
        hand := Some(batch[0]);
        batch := batch[1..];
      case RunTask =>
        var task := hand.value;
        hand := None;
        Feed(FromTask(task));
      case PopTimer =>
        armed := None;
        expired := true;
      case FeedTimer =>
        expired := false;
        Feed(FromTimer);
    }

    /** The loop over a batch of tasks (worker.c:216-242), up to the next event that the
        owner has to see: all of the batch is run, in order, unless an event is raised. */
    method RunBatch()
      requires Inv(View()) && events == [] && !expired && hand == None
      modifies this
      ensures Inv(View()) && hand == None
      ensures batch == [] || events != []
      ensures tasks == old(tasks) && old(batch)[|old(batch)| - |batch|..] == batch
    {
      hide Inv, TimerModel.Feed;
      ghost var all := batch;
      while batch != [] && events == []
        invariant Inv(View()) && hand == None && !expired
        invariant tasks == old(tasks) && |batch| <= |all| && all[|all| - |batch|..] == batch
        decreases |batch|
      {
        Work(PopTask);
        RunKeeps(View());
        Work(RunTask);
      }
    }
  }

  // Running a task leaves the queues and the timers alone.
  lemma RunKeeps(t: TimerModel.Timer)
    requires Inv(t) && CanWork(t, RunTask)
    ensures Work(t, RunTask).Some?
    ensures var r := Work(t, RunTask).value;
      r.tasks == t.tasks && r.batch == t.batch && r.hand == None && r.expired == t.expired
  {
    WorkInv(t, RunTask);
  }
}

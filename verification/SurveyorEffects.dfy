/** What each step of the SURVEYOR socket does, seen from outside. */
module SurveyorEffects {
  import opened Bytes
  import opened Wire
  import opened TimerModel
  import opened S = Surveyor
  import XReq

  // What the worker makes of a socket, by the event that its step raises.
  lemma WorkerIs(s: S.Surveyor, w: WorkerStep)
    requires S.Inv(s) && CanStep(s, Worker(w)) && Apply(s, Worker(w)).Some?
    ensures TimerModel.Work(s.timer, w).Some?
    ensures var timer := TimerModel.Work(s.timer, w).value; var r := Apply(s, Worker(w)).value;
      && (timer.events == [] ==> r == s.(timer := timer) && timer.fsm == s.timer.fsm)
      && (timer.events != [] ==>
            && timer.events == [if w == RunTask then Stopped else Timeout]
            && Some(r) == S.Feed(s.(timer := timer.(events := [])), OnTimer(timer.events[0])))
      && (timer.events == [Stopped] ==> s.timer.hand == Some(StopTask) && s.timer.fsm == Stopping)
      && (timer.events == [Timeout] ==> s.timer.fsm == Active)
      && (timer.events != [] <==>
            (w == RunTask && s.timer.hand == Some(StopTask)) || (w == FeedTimer && s.timer.fsm == Active))
  {
    hide S.Feed, Drain, TimerModel.Inv, TimerModel.Work;
    TimerModel.WorkInv(s.timer, w);
    WorkerInv(s, w);
    CalmTimer(s.timer);
    var timer := TimerModel.Work(s.timer, w).value;
    CalmTimer(timer);
    if timer.events == [] {
      assert Drain(s.(timer := timer)) == Some(s.(timer := timer)) by { DrainNothing(s.(timer := timer)); }
    } else {
      EventInv(s, timer.(events := []), timer.events[0]);
      DrainOne(s.(timer := timer));
    }
  }

  lemma DrainNothing(s: S.Surveyor)
    requires s.timer.events == []
    ensures Drain(s) == Some(s)
  {
  }

  // A step that feeds the expired handle of the survey in progress.
  predicate Expires(s: S.Surveyor, step: Step) { step == Worker(FeedTimer) && s.fsm == Active && s.state == ACTIVE }

  lemma LaunchEffects(s: S.Surveyor)
    requires TimerModel.Inv(s.timer) && Launch(s).Some?
    ensures Wait(Launch(s).value.timer) == Some(s.deadline)
  {
    TimerModel.StartInv(s.timer, s.deadline);
  }

  /** What each step leaves as it was and what it changes: a survey gets the next id, its body
      is the caller's, it is the very message that is sent, once and with the deadline set at
      that time; that it expired is remembered until the application is told. */
  lemma StepEffects(s: S.Surveyor, step: Step)
    requires S.Inv(s) && CanStep(s, step) && Apply(s, step).Some?
    ensures var r := Apply(s, step).value;
      && r.id == (if step.Send? then WithTop((s.id + 1) % 0x1_0000_0000) else s.id)
      && r.tosend == (if step.Send? then Msg(PutL(r.id), step.body) else s.tosend)
      && r.sent == (if Launches(s, step) then s.sent + [r.tosend] else s.sent)
      && (Launches(s, step) ==> Wait(r.timer) == Some(s.deadline))
      && r.deadline == (if step.SetDeadline? then step.deadline else s.deadline)
      && (!step.Receive? ==> r.queue == s.queue + if step.Arrive? then step.arrived else [])
      && (r.timedout <==> (s.timedout || Expires(s, step)) && !(step.Receive? && S.Recv(s).0 == ETIMEDOUT))
      && r.expiries == s.expiries + (if Expires(s, step) then 1 else 0)
      && r.noticed == s.noticed + (if step.Receive? && S.Recv(s).0 == ETIMEDOUT then 1 else 0)
  {
    hide TimerModel.Inv, TimerModel.Work, Drain, Search;
    match step
    case Send(body) => if s.state == PASSIVE { LaunchEffects(Submit(s, body)); }
    case Worker(w) => WorkerEffects(s, w);
    case Receive => SearchRest(s.id, s.queue);
    case _ =>
  }

  lemma WorkerEffects(s: S.Surveyor, w: WorkerStep)
    requires S.Inv(s) && CanStep(s, Worker(w)) && Apply(s, Worker(w)).Some?
    ensures var r := Apply(s, Worker(w)).value; var step := Worker(w);
      && r.id == s.id && r.tosend == s.tosend && r.deadline == s.deadline && r.queue == s.queue
      && r.sent == (if Launches(s, step) then s.sent + [r.tosend] else s.sent)
      && (Launches(s, step) ==> Wait(r.timer) == Some(s.deadline))
      && (r.timedout <==> s.timedout || Expires(s, step))
      && r.expiries == s.expiries + (if Expires(s, step) then 1 else 0) && r.noticed == s.noticed
  {
    hide TimerModel.Work, Drain;
    WorkerIs(s, w);
    TimerModel.WorkInv(s.timer, w);
    var timer := TimerModel.Work(s.timer, w).value;
    CalmTimer(timer);
    if Launches(s, Worker(w)) { LaunchEffects(s.(timer := timer.(events := []))); }
  }

  /** The state after each step.  A survey ends when its deadline has passed and the timer has
      stopped, and in no other way; a newer one takes the place of one in progress. */
  lemma StateAfter(s: S.Surveyor, step: Step)
    requires S.Inv(s) && s.fsm == Active && CanStep(s, step) && Apply(s, step).Some?
    ensures var r := Apply(s, step).value;
      match step
      case Send(_) => r.state == if s.state == PASSIVE then ACTIVE else CANCELLING
      case StopSocket => r.fsm != Active
      case Worker(RunTask) =>
        if s.timer.hand != Some(StopTask) then r.state == s.state
        else r.state == if s.state == STOPPING_TIMER then PASSIVE else ACTIVE
      case Worker(FeedTimer) => r.state == if s.state == ACTIVE then STOPPING_TIMER else s.state
      case _ => r.state == s.state
  {
    hide TimerModel.Inv, Drain, Search;
    match step
    case Worker(w) =>
      WorkerIs(s, w);
      TimerModel.WorkInv(s.timer, w);
    case StopSocket => TimerModel.StopInv(s.timer);
    case _ =>
  }

  /** A survey that was started comes to its end: with the worker alone, its deadline passes
      and the timer stops; one that was cancelled makes room for the next, which is sent.  Each
      of this takes at most Rank steps. */
  lemma SurveyProgress(s: S.Surveyor)
    requires S.Inv(s) && s.fsm == Active && s.deadline >= 0 && s.state != PASSIVE
    ensures exists w :: CanStep(s, Worker(w))
    ensures forall w :: CanStep(s, Worker(w)) ==>
      && Apply(s, Worker(w)).Some? && S.Inv(Apply(s, Worker(w)).value)
      && var r := Apply(s, Worker(w)).value;
         || (r.state == s.state && r.sent == s.sent && Rank(r.timer) < Rank(s.timer))
         || (s.state == ACTIVE && r.state == STOPPING_TIMER && r.timedout)
         || (s.state == STOPPING_TIMER && r.state == PASSIVE)
         || (s.state == CANCELLING && r.state == ACTIVE && r.sent == s.sent + [s.tosend])
  {
    hide TimerModel.Inv, Apply, Rank;
    TimerModel.Progress(s.timer);
    var step :| CanWork(s.timer, step);
    assert CanStep(s, Worker(step));
    forall w | CanStep(s, Worker(w))
      ensures Apply(s, Worker(w)).Some? && S.Inv(Apply(s, Worker(w)).value)
      ensures var r := Apply(s, Worker(w)).value;
         || (r.state == s.state && r.sent == s.sent && Rank(r.timer) < Rank(s.timer))
         || (s.state == ACTIVE && r.state == STOPPING_TIMER && r.timedout)
         || (s.state == STOPPING_TIMER && r.state == PASSIVE)
         || (s.state == CANCELLING && r.state == ACTIVE && r.sent == s.sent + [s.tosend])
    {
      StepInv(s, Worker(w));
      StepEffects(s, Worker(w));
      StateAfter(s, Worker(w));
      WorkerIs(s, w);
    }
  }
}

/** What each step of the REQ socket does, seen from outside: what is sent, to whom and how
    often, which messages are taken off the queue, and what the application gets. */
module ReqEffects {
  import opened Bytes
  import opened Wire
  import opened TimerModel
  import opened ReqModel
  import opened ReqProofs
  import XReq

  // ---------- What is sent ----------

  function PickOf(step: Step): Pick {
    match step
    case CSend(_, pick) => pick
    case PipeOut(_, pick) => pick
    case Worker(_, pick) => pick
    case _ => Pick(0, false)
  }

  // The id, the request and what was sent so far, the pipes that can be written to and the
  // resend interval, and, if it keeps them, the messages and the reply.
  predicate SameBut(s: Req, r: Req, sends: bool, pick: Pick, keeps: bool) {
    && r.id == s.id && r.request == s.request && r.ivl == s.ivl
    && (keeps ==> r.queue == s.queue && r.reply == s.reply && r.accepted == s.accepted && r.later == s.later)
    && r.sent == (if sends then s.sent + [(pick.pipe, s.request)] else s.sent)
    && r.ready == (if sends && pick.release then s.ready - {pick.pipe} else s.ready)
    && (sends ==> r.state == ACTIVE && r.sentTo == Some(pick.pipe) && Wait(r.timer) == Some(s.ivl))
    && (!sends && r.state == ACTIVE ==> s.state == ACTIVE && r.sentTo == s.sentTo)
  }

  lemma SendEffects(s: Req, allowDelay: bool, pick: Pick)
    requires TimerModel.Inv(s.timer) && s.timer.events == [] && ActionSend(s, allowDelay, pick).Some?
    ensures var r := ActionSend(s, allowDelay, pick).value;
      SameBut(s, r, s.ready != {}, pick, true) && r.state == if s.ready == {} then DELAYED else ACTIVE
  {
    TimerModel.StartInv(s.timer, s.ivl);
  }

  lemma {:induction false} InSame(s: Req, pick: Pick)
    requires ReqProofs.Inv(s) && s.fsm == Active
    ensures In(s, pick).Some? && SameBut(s, In(s, pick).value, false, pick, false)
    decreases |s.queue|
  {
    InInv(s, pick);
    if s.queue != [] {
      TakeInv(s);
      InSame(Take(s), pick);
    }
  }

  // What the worker makes of a socket, by the event that its step raises.
  lemma WorkerIs(s: Req, w: WorkerStep, pick: Pick)
    requires ReqProofs.Inv(s) && CanStep(s, Worker(w, pick)) && Apply(s, Worker(w, pick)).Some?
    ensures TimerModel.Work(s.timer, w).Some?
    ensures var timer := TimerModel.Work(s.timer, w).value; var r := Apply(s, Worker(w, pick)).value;
      && (timer.events == [] ==> r == s.(timer := timer) && timer.fsm == s.timer.fsm)
      && (timer.events != [] ==>
            && timer.events == [if w == RunTask then Stopped else Timeout]
            && Some(r) == ReqModel.Feed(s.(timer := timer.(events := [])), OnTimer(timer.events[0]), pick))
      && (timer.events == [Stopped] ==> s.timer.hand == Some(StopTask) && s.timer.fsm == Stopping)
      && (timer.events == [Timeout] ==> s.timer.fsm == Active)
      && (timer.events != [] <==>
            (w == RunTask && s.timer.hand == Some(StopTask)) || (w == FeedTimer && s.timer.fsm == Active))
  {
    hide ReqModel.Feed, Drain, TimerModel.Inv, TimerModel.Work;
    TimerModel.WorkInv(s.timer, w);
    WorkerInv(s, w, pick);
    var timer := TimerModel.Work(s.timer, w).value;
    if timer.events == [] {
      DrainNothing(s.(timer := timer), pick);
    } else {
      if w == RunTask { StopTaskPending(s.timer); }
      CalmTimer(timer);
      EventInv(s, timer.(events := []), timer.events[0], pick);
      DrainOne(s.(timer := timer), pick);
    }
  }

  lemma WorkerSame(s: Req, w: WorkerStep, pick: Pick)
    requires ReqProofs.Inv(s) && CanStep(s, Worker(w, pick)) && Apply(s, Worker(w, pick)).Some?
    ensures SameBut(s, Apply(s, Worker(w, pick)).value, Sends(s, Worker(w, pick)), pick, true)
  {
    hide TimerModel.Inv, TimerModel.Work, Drain;
    WorkerIs(s, w, pick);
    TimerModel.WorkInv(s.timer, w);
    var timer := TimerModel.Work(s.timer, w).value;
    CalmTimer(timer);
    if timer.events == [Stopped] && s.fsm == Active && s.state != STOPPING_TIMER {
      SendEffects(s.(timer := timer.(events := [])), true, pick);
    }
  }

  /** What each step leaves as it was and what it changes: a request gets an id one higher
      than the one before, its body is the caller's, it is the very message that is sent
      whenever something is, to the pipe that was picked and with the interval set at that
      time, and a pipe can be written to from when it says so until it is removed or full. */
  lemma StepEffects(s: Req, step: Step)
    requires ReqProofs.Inv(s) && CanStep(s, step) && Apply(s, step).Some?
    ensures var r := Apply(s, step).value; var p := PickOf(step); var sends := Sends(s, step);
      && r.id == (if step.CSend? then (s.id + 1) % 0x1_0000_0000 else s.id)
      && r.request == (if step.CSend? then Msg(PutL(WithTop(r.id)), step.body) else s.request)
      && r.sent == (if sends then s.sent + [(p.pipe, r.request)] else s.sent)
      && r.ivl == (if step.SetIvl? then step.ivl else s.ivl)
      && (!step.PipeIn? ==> r.queue == s.queue && r.accepted == s.accepted && r.later == s.later)
      && (!step.PipeIn? ==> r.reply == if step.CRecv? && s.state == DONE then Holds(EMPTY) else s.reply)
      && (forall q :: q in r.ready <==>
            && (q in s.ready || (step.PipeOut? && q == step.pipe))
            && !(step.PipeRm? && q == step.pipe)
            && !(sends && p.release && q == p.pipe))
      && (sends ==> r.state == ACTIVE && r.sentTo == Some(p.pipe) && Wait(r.timer) == Some(s.ivl))
      && (!sends && r.state == ACTIVE ==> s.state == ACTIVE && r.sentTo == s.sentTo)
      && (step.PipeRm? ==> r.sentTo != Some(step.pipe))
  {
    hide TimerModel.Inv, Drain;
    match step
    case CSend(body, pick) => CSendSame(s, body, pick);
    case PipeIn(arrived) => InSame(s.(queue := s.queue + arrived), Pick(0, false));
    case PipeOut(pipe, pick) =>
      if s.state == DELAYED { SendEffects(s.(ready := s.ready + {pipe}), false, pick); }
    case Worker(w, pick) => WorkerSame(s, w, pick);
    case PipeRm(pipe) => TimerModel.StopInv(s.timer);
    case _ =>
  }

  lemma CSendSame(s: Req, body: seq<byte>, pick: Pick)
    requires ReqProofs.Inv(s) && CanStep(s, CSend(body, pick)) && Apply(s, CSend(body, pick)).Some?
    ensures var r := Apply(s, CSend(body, pick)).value;
      && r.id == (s.id + 1) % 0x1_0000_0000 && r.request == Msg(PutL(WithTop(r.id)), body)
      && SameBut(s.(id := r.id, request := r.request), r, Sends(s, CSend(body, pick)), pick, true)
  {
    if s.state == PASSIVE || s.state == DONE { SendEffects(Submit(s, body), true, pick); }
  }

  // ---------- The states ----------

  // A message at which grid_req_in stops: a malformed one, or one for the request in progress.
  predicate Halts(s: Req, d: Delivery) {
    match XReq.Split(d)
    case None => true
    case Some(m) => InProgress(s) && m.hdr == PutL(WithTop(s.id))
  }

  // The first of them is at k, or there is none and k is the end of the queue.
  predicate HaltsAt(s: Req, queue: seq<Delivery>, k: nat) {
    && k <= |queue| && (forall j :: 0 <= j < k ==> !Halts(s, queue[j]))
    && (k < |queue| ==> Halts(s, queue[k]))
  }

  lemma FitsExact(id: word, m: Msg)
    ensures Fits(id, m) <==> m.hdr == PutL(WithTop(id))
  {
    hide PutL, GetL;
    GetPut(WithTop(id), []);
    assert PutL(WithTop(id)) + [] == PutL(WithTop(id));
    if Fits(id, m) {
      PutGet(m.hdr);
      assert m.hdr[..4] == m.hdr;
    }
  }

  lemma HaltsTail(s: Req, k: nat)
    requires s.queue != [] && HaltsAt(s, s.queue, k)
    ensures Halts(s, s.queue[0]) <==> k == 0
    ensures k > 0 ==> HaltsAt(Take(s), Take(s).queue, k - 1)
  {
    if k > 0 {
      assert forall j :: 0 <= j < |Take(s).queue| ==> Take(s).queue[j] == s.queue[j + 1];
      assert forall d :: Halts(Take(s), d) <==> Halts(s, d);
    }
  }

  /** grid_req_in takes the messages up to the first malformed one or the first with the id of
      the request in progress, and only if the request is still in the hands of a pipe does the
      latter become the reply.  All in front of it are thrown away. */
  lemma {:induction false} InTakes(s: Req, pick: Pick, k: nat)
    requires ReqProofs.Inv(s) && s.fsm == Active && HaltsAt(s, s.queue, k)
    ensures In(s, pick).Some?
    ensures var r := In(s, pick).value;
      if k == |s.queue| then r.queue == [] && r.state == s.state && r.reply == (if k == 0 then s.reply else Released)
      else
        && r.queue == s.queue[k + 1..]
        && match XReq.Split(s.queue[k])
           case None => r.state == s.state && r.reply == Released
           case Some(m) =>
             && r.reply == Holds(Msg([], m.body))
             && r.state == (if s.state == ACTIVE then STOPPING_TIMER else s.state)
             && (s.state == ACTIVE ==> r.accepted == Msg([], m.body) && r.later == [])
    decreases |s.queue|
  {
    hide PutL, GetL, ReqProofs.Inv;
    InInv(s, pick);
    if s.queue != [] {
      var m := XReq.Split(s.queue[0]);
      if m.Some? { FitsExact(s.id, m.value); }
      HaltsTail(s, k);
      TakeInv(s);
      if k > 0 { InTakes(Take(s), pick, k - 1); }
    }
  }

  /** The state after each step.  A request that was sent is sent again when its interval is
      over or its pipe goes, and waits for a pipe when there is none; a newer request takes the
      place of one that is on its way; a reply is there to be taken once. */
  lemma StateAfter(s: Req, step: Step)
    requires ReqProofs.Inv(s) && s.fsm == Active && CanStep(s, step) && Apply(s, step).Some?
    ensures var r := Apply(s, step).value;
      match step
      case CSend(_, _) =>
        r.state == (if s.state == PASSIVE || s.state == DONE then (if s.ready == {} then DELAYED else ACTIVE)
                    else if s.state == DELAYED then DELAYED else CANCELLING)
      case CRecv => r.state == if s.state == DONE then PASSIVE else s.state
      case PipeIn(arrived) =>
        forall k: nat :: HaltsAt(s, s.queue + arrived, k) ==>
          r.state == (if s.state == ACTIVE && k < |s.queue + arrived| && XReq.Split((s.queue + arrived)[k]).Some?
                      then STOPPING_TIMER else s.state)
      case PipeOut(_, _) => r.state == if s.state == DELAYED then ACTIVE else s.state
      case PipeRm(pipe) => r.state == if s.sentTo == Some(pipe) then TIMED_OUT else s.state
      case SetIvl(_) => r.state == s.state
      case StopSocket => r.fsm != Active
      case Worker(RunTask, _) =>
        if s.timer.hand != Some(StopTask) then r.state == s.state
        else if s.state == STOPPING_TIMER then r.state == DONE
        else r.state == if s.ready == {} then DELAYED else ACTIVE
      case Worker(FeedTimer, _) => r.state == if s.state == ACTIVE then TIMED_OUT else s.state
      case Worker(_, _) => r.state == s.state
  {
    hide TimerModel.Inv, Drain, Halts, HaltsAt, In, ReqModel.Feed, StopReq;
    match step
    case PipeIn(arrived) =>
      forall k: nat | HaltsAt(s, s.queue + arrived, k)
        ensures Apply(s, step).value.state ==
          (if s.state == ACTIVE && k < |s.queue + arrived| && XReq.Split((s.queue + arrived)[k]).Some?
           then STOPPING_TIMER else s.state)
      {
        PipeInAfter(s, arrived, k);
      }
    case Worker(w, pick) => WorkerAfter(s, w, pick);
    case StopSocket => StopsIt(s);
    case _ => CallAfter(s, step);
  }

  lemma PipeInAfter(s: Req, arrived: seq<Delivery>, k: nat)
    requires ReqProofs.Inv(s) && s.fsm == Active && HaltsAt(s, s.queue + arrived, k)
    ensures var r := In(s.(queue := s.queue + arrived), Pick(0, false));
      r.Some? && r.value.state ==
        (if s.state == ACTIVE && k < |s.queue + arrived| && XReq.Split((s.queue + arrived)[k]).Some?
         then STOPPING_TIMER else s.state)
  {
    hide Halts, In;
    SameHalts(s, s.queue + arrived);
    InTakes(s.(queue := s.queue + arrived), Pick(0, false), k);
  }

  lemma WorkerAfter(s: Req, w: WorkerStep, pick: Pick)
    requires ReqProofs.Inv(s) && s.fsm == Active && CanStep(s, Worker(w, pick)) && Apply(s, Worker(w, pick)).Some?
    ensures var r := Apply(s, Worker(w, pick)).value;
      r.state ==
        if w == RunTask && s.timer.hand == Some(StopTask) then
          if s.state == STOPPING_TIMER then DONE else if s.ready == {} then DELAYED else ACTIVE
        else if w == FeedTimer && s.state == ACTIVE then TIMED_OUT
        else s.state
  {
    hide TimerModel.Inv, TimerModel.Work, Drain;
    WorkerIs(s, w, pick);
    TimerModel.WorkInv(s.timer, w);
  }

  // What the application and the pipes do.
  lemma CallAfter(s: Req, step: Step)
    requires ReqProofs.Inv(s) && s.fsm == Active && CanStep(s, step) && Apply(s, step).Some?
    requires !step.Worker? && !step.PipeIn? && !step.StopSocket?
    ensures Apply(s, step).value.state ==
      match step
      case CSend(_, _) =>
        (if s.state == PASSIVE || s.state == DONE then (if s.ready == {} then DELAYED else ACTIVE)
         else if s.state == DELAYED then DELAYED else CANCELLING)
      case CRecv => if s.state == DONE then PASSIVE else s.state
      case PipeOut(_, _) => if s.state == DELAYED then ACTIVE else s.state
      case PipeRm(pipe) => if s.sentTo == Some(pipe) then TIMED_OUT else s.state
      case _ => s.state
  {
    hide TimerModel.Inv, TimerModel.Start, TimerModel.Stop, PutL;
  }

  lemma SameHalts(s: Req, queue: seq<Delivery>)
    ensures forall d :: Halts(s.(queue := queue), d) <==> Halts(s, d)
    ensures forall q, k: nat :: HaltsAt(s.(queue := queue), q, k) <==> HaltsAt(s, q, k)
  {
  }

  lemma StopsIt(s: Req)
    requires ReqProofs.Inv(s) && s.fsm == Active
    ensures StopReq(s).Some? && StopReq(s).value.fsm != Active
  {
    TimerModel.StopInv(s.timer);
  }

  // ---------- Runs ----------

  // The body of the latest request, until its reply is taken.
  function Outstanding(s: Req, steps: seq<Step>, latest: Option<seq<byte>>): Option<seq<byte>>
    requires Legal(s, steps)
    decreases |steps|
  {
    if steps == [] || Apply(s, steps[0]) == None then latest
    else
      var now :=
        if steps[0].CSend? then Some(steps[0].body)
        else if steps[0].CRecv? && CRecvResult(s).Got? then None
        else latest;
      Outstanding(Apply(s, steps[0]).value, steps[1..], now)
  }

  predicate Current(s: Req, latest: Option<seq<byte>>) {
    s.fsm == Active ==>
      match latest
      case None => s.state == PASSIVE
      case Some(body) => InProgress(s) && s.request == Msg(PutL(WithTop(s.id)), body)
  }

  lemma StepCurrent(s: Req, step: Step, latest: Option<seq<byte>>)
    requires ReqProofs.Inv(s) && CanStep(s, step) && Apply(s, step).Some? && Current(s, latest)
    ensures var now :=
        if step.CSend? then Some(step.body)
        else if step.CRecv? && CRecvResult(s).Got? then None
        else latest;
      Current(Apply(s, step).value, now)
  {
    hide PutL, TimerModel.Inv, Apply, HaltsAt;
    StepInv(s, step);
    StepEffects(s, step);
    if s.fsm == Active {
      StateAfter(s, step);
      if step.PipeIn? {
        var k := HaltsSomewhere(s, s.queue + step.arrived);
        assert HaltsAt(s, s.queue + step.arrived, k);
      }
      if s.timer.hand == Some(StopTask) { StopTaskPending(s.timer); }
    } else {
      StaysStopped(s, step);
    }
  }

  lemma {:induction false} HaltsSomewhere(s: Req, queue: seq<Delivery>) returns (k: nat)
    ensures HaltsAt(s, queue, k)
  {
    k := 0;
    while k < |queue| && !Halts(s, queue[k])
      invariant k <= |queue| && forall j :: 0 <= j < k ==> !Halts(s, queue[j])
    {
      k := k + 1;
    }
  }

  lemma StaysStopped(s: Req, step: Step)
    requires ReqProofs.Inv(s) && s.fsm != Active && CanStep(s, step) && Apply(s, step).Some?
    ensures Apply(s, step).value.fsm != Active
  {
    match step
    case Worker(w, pick) => WorkerIs(s, w, pick);
    case _ =>
  }

  lemma {:induction false} RunCurrent(s: Req, steps: seq<Step>, latest: Option<seq<byte>>)
    requires ReqProofs.Inv(s) && s.ivl >= 0 && Legal(s, steps) && NoNegative(steps) && Current(s, latest)
    ensures Run(s, steps).Some? && Current(Run(s, steps).value, Outstanding(s, steps, latest))
    decreases |steps|
  {
    hide ReqProofs.Inv, Apply, Current;
    RunSafe(s, steps);
    if steps != [] {
      StepInv(s, steps[0]);
      IvlKept(s, steps[0]);
      StepCurrent(s, steps[0], latest);
      assert steps[0] in steps;
      assert forall step :: step in steps[1..] ==> step in steps;
      var now :=
        if steps[0].CSend? then Some(steps[0].body)
        else if steps[0].CRecv? && CRecvResult(s).Got? then None
        else latest;
      RunCurrent(Apply(s, steps[0]).value, steps[1..], now);
    }
  }

  /** After any run without negative intervals: crecv answers -EFSM exactly when there is no
      request whose reply is still to be taken, and -EAGAIN when its reply is not there yet;
      the request that is sent, and sent again, is the latest one of the application, under
      the latest id. */
  lemma RunRequests(id: word, steps: seq<Step>)
    requires Legal(Init(id), steps) && NoNegative(steps)
    ensures Run(Init(id), steps).Some?
    ensures var s := Run(Init(id), steps).value;
      s.fsm == Active ==>
        match Outstanding(Init(id), steps, None)
        case None => CRecvResult(s) == EFSM
        case Some(body) =>
          && s.request == Msg(PutL(WithTop(s.id)), body)
          && CRecvResult(s) == if s.state == DONE then Got(s.reply) else EAGAIN
  {
    ReqProofs.InitInv(id);
    RunCurrent(Init(id), steps, None);
  }

  /** A request is sent until its reply comes: with the worker alone, an interval that is
      running comes to its end, and a timer that is being stopped stops; then the request is
      sent again, or waits for a pipe, or its reply can be taken.  Each of this takes at most
      Rank steps. */
  lemma ResendProgress(s: Req, pick: Pick)
    requires ReqProofs.Inv(s) && s.fsm == Active && s.ivl >= 0 && (s.ready != {} ==> pick.pipe in s.ready)
    requires s.state == ACTIVE || TimerStopping(s.state)
    ensures exists w :: CanStep(s, Worker(w, pick))
    ensures forall w :: CanStep(s, Worker(w, pick)) ==>
      && Apply(s, Worker(w, pick)).Some? && ReqProofs.Inv(Apply(s, Worker(w, pick)).value)
      && var r := Apply(s, Worker(w, pick)).value;
         || (r.state == s.state && r.sent == s.sent && Rank(r.timer) < Rank(s.timer))
         || (s.state == ACTIVE && r.state == TIMED_OUT)
         || (s.state == STOPPING_TIMER && r.state == DONE)
         || ((s.state == TIMED_OUT || s.state == CANCELLING) &&
             if s.ready == {} then r.state == DELAYED
             else r.state == ACTIVE && r.sent == s.sent + [(pick.pipe, s.request)])
  {
    hide TimerModel.Inv, Apply, Rank;
    TimerModel.Progress(s.timer);
    var step :| CanWork(s.timer, step);
    assert CanStep(s, Worker(step, pick));
    forall w | CanStep(s, Worker(w, pick))
      ensures Apply(s, Worker(w, pick)).Some? && ReqProofs.Inv(Apply(s, Worker(w, pick)).value)
      ensures var r := Apply(s, Worker(w, pick)).value;
         || (r.state == s.state && r.sent == s.sent && Rank(r.timer) < Rank(s.timer))
         || (s.state == ACTIVE && r.state == TIMED_OUT)
         || (s.state == STOPPING_TIMER && r.state == DONE)
         || ((s.state == TIMED_OUT || s.state == CANCELLING) &&
             if s.ready == {} then r.state == DELAYED
             else r.state == ACTIVE && r.sent == s.sent + [(pick.pipe, s.request)])
    {
      StepInv(s, Worker(w, pick));
      StepEffects(s, Worker(w, pick));
      StateAfter(s, Worker(w, pick));
      WorkerIs(s, w, pick);
    }
  }
}

/** What every run of the REQ socket keeps. */
module ReqProofs {
  import opened Bytes
  import opened Wire
  import opened TimerModel
  import opened ReqModel
  import XReq

  // The states in which the resend timer is stopping.
  predicate TimerStopping(state: State) {
    state == TIMED_OUT || state == CANCELLING || state == STOPPING_TIMER
  }

  predicate HasReply(state: State) { state == STOPPING_TIMER || state == DONE }

  // What is in `task.reply`: the accepted reply until another message is taken off the
  // queue, and then what that message has left there.
  predicate ReplyKept(s: Req) {
    && s.acceptedId == WithTop(s.id)
    && s.reply == if s.later == [] then Holds(s.accepted) else TakenFor(s.id, s.later[|s.later| - 1])
  }

  ghost predicate Inv(s: Req) {
    && TimerModel.Inv(s.timer) && s.timer.events == []
    && match s.fsm
       case Active =>
         && s.state != IDLE && s.state != STOPPING && s.reports == 0
         && s.timer.fsm == (if s.state == ACTIVE then Active
                            else if TimerStopping(s.state) then Stopping else Idle)
         && (s.sentTo.Some? <==> s.state == ACTIVE)
         && (s.state == DELAYED ==> s.ready == {})
         && (InProgress(s) ==> s.request.hdr == PutL(WithTop(s.id)))
         && (s.state == ACTIVE ==> s.sent != [] && s.sent[|s.sent| - 1] == (s.sentTo.value, s.request))
         && (s.state == ACTIVE ==> Ticking(s.timer))
         && (HasReply(s.state) ==> ReplyKept(s))
       case Stopping => s.state == STOPPING && s.timer.fsm == Stopping && s.reports == 0
       case Idle => s.state == IDLE && s.timer.fsm == Idle && s.reports == 1
  }

  lemma InitInv(id: word)
    ensures Inv(Init(id))
  {
  }

  /** When a step hands the request to a pipe, and so starts the timer. */
  predicate Sends(s: Req, step: Step) {
    match step
    case CSend(_, _) => (s.state == PASSIVE || s.state == DONE) && s.ready != {}
    case PipeOut(_, _) => s.state == DELAYED
    case Worker(RunTask, _) =>
      && s.timer.hand == Some(StopTask) && s.fsm == Active
      && (s.state == TIMED_OUT || s.state == CANCELLING) && s.ready != {}
    case _ => false
  }

  // The state between a call of ActionSend and the invariant.
  lemma SendInv(s: Req, allowDelay: bool, pick: Pick)
    requires TimerModel.Inv(s.timer) && s.timer.fsm == Idle && s.timer.events == []
    requires s.fsm == Active && s.reports == 0 && s.request.hdr == PutL(WithTop(s.id))
    requires s.sentTo == None && (s.ready == {} ==> allowDelay)
    ensures ActionSend(s, allowDelay, pick).Some? <==> s.ready == {} || s.ivl >= 0
    ensures ActionSend(s, allowDelay, pick).Some? ==> Inv(ActionSend(s, allowDelay, pick).value)
  {
    TimerModel.StartInv(s.timer, s.ivl);
  }

  lemma StopTimerInv(s: Req, state: State)
    requires TimerModel.Inv(s.timer) && s.timer.fsm == Active && s.timer.events == []
    requires s.fsm == Active && s.reports == 0 && TimerStopping(state)
    requires s.request.hdr == PutL(WithTop(s.id))
    requires HasReply(state) ==> ReplyKept(s)
    ensures StopTimer(s, state).Some? && Inv(StopTimer(s, state).value)
  {
    TimerModel.StopInv(s.timer);
  }

  lemma CSendInv(s: Req, body: seq<byte>, pick: Pick)
    requires Inv(s) && CanStep(s, CSend(body, pick))
    ensures Apply(s, CSend(body, pick)).Some? <==> !(Sends(s, CSend(body, pick)) && s.ivl < 0)
    ensures Apply(s, CSend(body, pick)).Some? ==> Inv(Apply(s, CSend(body, pick)).value)
  {
    var r := Submit(s, body);
    if s.state == PASSIVE || s.state == DONE {
      SendInv(r, true, pick);
    } else if s.state == ACTIVE {
      StopTimerInv(r, CANCELLING);
    }
  }

  // The loop of grid_req_in.
  lemma {:induction false} InInv(s: Req, pick: Pick)
    requires Inv(s) && s.fsm == Active
    ensures In(s, pick).Some? && Inv(In(s, pick).value)
    decreases |s.queue|
  {
    if s.queue != [] {
      var m := XReq.Split(s.queue[0]);
      TakeInv(s);
      if m.Some? && (!InProgress(s) || !Fits(s.id, m.value)) {
        InInv(Take(s), pick);
      } else if m.Some? && s.state == ACTIVE {
        var accepted := Msg([], m.value.body);
        StopTimerInv(Take(s).(accepted := accepted, acceptedId := GetL(m.value.hdr), later := []), STOPPING_TIMER);
      }
    }
  }

  lemma TakeInv(s: Req)
    requires Inv(s) && s.fsm == Active && s.queue != []
    ensures Inv(Take(s)) && Take(s).fsm == Active
  {
  }

  lemma DrainNothing(s: Req, pick: Pick)
    requires s.timer.events == []
    ensures Drain(s, pick) == Some(s)
  {
  }

  // Draining one event of the timer.
  lemma DrainOne(s: Req, pick: Pick)
    requires |s.timer.events| == 1
    requires var r := ReqModel.Feed(s.(timer := s.timer.(events := [])), OnTimer(s.timer.events[0]), pick);
      r.Some? ==> r.value.timer.events == []
    ensures Drain(s, pick) == ReqModel.Feed(s.(timer := s.timer.(events := [])), OnTimer(s.timer.events[0]), pick)
  {
    assert s.timer.events[1..] == [];
    var r := ReqModel.Feed(s.(timer := s.timer.(events := [])), OnTimer(s.timer.events[0]), pick);
    if r.Some? { DrainNothing(r.value, pick); }
  }

  // What an event of the timer makes of the socket.
  lemma EventInv(was: Req, timer: Timer, e: Event, pick: Pick)
    requires Inv(was) && was.timer.fsm == (if e == Stopped then Stopping else Active)
    requires TimerModel.Inv(timer) && timer.events == [] && timer.fsm == (if e == Stopped then Idle else Active)
    ensures var s := was.(timer := timer); var r := ReqModel.Feed(s, OnTimer(e), pick);
      && (r.Some? <==> !(e == Stopped && s.fsm == Active && (s.state == TIMED_OUT || s.state == CANCELLING)
                         && s.ready != {} && s.ivl < 0))
      && (r.Some? ==> Inv(r.value))
  {
    var s := was.(timer := timer);
    if e == Timeout {
      StopTimerInv(s, TIMED_OUT);
    } else if s.fsm == Active && (s.state == TIMED_OUT || s.state == CANCELLING) {
      SendInv(s, true, pick);
    }
  }

  // Inv without what it says about the timer's own parts.
  lemma OtherTimer(s: Req, timer: Timer)
    requires Inv(s) && TimerModel.Inv(timer) && timer.fsm == s.timer.fsm && timer.events == []
    requires Ticking(s.timer) ==> Ticking(timer)
    ensures Inv(s.(timer := timer))
  {
  }

  lemma CalmTimer(t: Timer)
    requires TimerModel.Inv(t)
    ensures TimerModel.Inv(t.(events := []))
  {
    assert Pending(t.(events := [])) == Pending(t);
  }

  lemma WorkerInv(s: Req, w: WorkerStep, pick: Pick)
    requires Inv(s) && CanStep(s, Worker(w, pick))
    ensures Apply(s, Worker(w, pick)).Some? <==> !(Sends(s, Worker(w, pick)) && s.ivl < 0)
    ensures Apply(s, Worker(w, pick)).Some? ==> Inv(Apply(s, Worker(w, pick)).value)
  {
    hide TimerModel.Inv, TimerModel.Work, ReqModel.Feed, Drain;
    TimerModel.WorkInv(s.timer, w);
    var timer := TimerModel.Work(s.timer, w).value;
    CalmTimer(timer);
    if timer.events == [] {
      OtherTimer(s, timer);
      DrainNothing(s.(timer := timer), pick);
    } else {
      if w == RunTask { StopTaskPending(s.timer); }
      EventInv(s, timer.(events := []), timer.events[0], pick);
      DrainOne(s.(timer := timer), pick);
    }
  }

  // The worker holds the stop task only while the timer is stopping.
  lemma StopTaskPending(t: Timer)
    requires TimerModel.Inv(t) && t.hand == Some(StopTask)
    ensures t.fsm == Stopping
  {
    assert Pending(t)[0] == StopTask;
  }

  /** Every step that can be taken keeps the invariant.  It fails an assertion exactly when
      it would start the timer with the negative interval that setopt lets through
      (req.c:310, timer.c:79); no bad-action, bad-source or bad-state branch is reachable. */
  lemma StepInv(s: Req, step: Step)
    requires Inv(s) && CanStep(s, step)
    ensures Apply(s, step).Some? <==> !(Sends(s, step) && s.ivl < 0)
    ensures Apply(s, step).Some? ==> Inv(Apply(s, step).value)
  {
    hide Inv, ReqModel.Feed, In, Drain, StopReq;
    match step
    case CSend(body, pick) => CSendInv(s, body, pick);
    case PipeIn(_) => PipeInInv(s, step);
    case PipeOut(_, _) => PipeOutInv(s, step);
    case PipeRm(_) => PipeRmInv(s, step);
    case Worker(w, pick) => WorkerInv(s, w, pick);
    case _ => OtherInv(s, step);
  }

  lemma PipeInInv(s: Req, step: Step)
    requires Inv(s) && CanStep(s, step) && step.PipeIn?
    ensures Apply(s, step).Some? && Inv(Apply(s, step).value)
  {
    InInv(s.(queue := s.queue + step.arrived), Pick(0, false));
  }

  lemma PipeOutInv(s: Req, step: Step)
    requires Inv(s) && CanStep(s, step) && step.PipeOut?
    ensures Apply(s, step).Some? <==> !(Sends(s, step) && s.ivl < 0)
    ensures Apply(s, step).Some? ==> Inv(Apply(s, step).value)
  {
    if s.state == DELAYED { SendInv(s.(ready := s.ready + {step.pipe}), false, step.pick); }
  }

  lemma PipeRmInv(s: Req, step: Step)
    requires Inv(s) && CanStep(s, step) && step.PipeRm?
    ensures Apply(s, step).Some? && Inv(Apply(s, step).value)
  {
    if s.sentTo == Some(step.pipe) { StopTimerInv(s.(ready := s.ready - {step.pipe}), TIMED_OUT); }
  }

  lemma OtherInv(s: Req, step: Step)
    requires Inv(s) && CanStep(s, step) && (step.CRecv? || step.SetIvl? || step.StopSocket?)
    ensures Apply(s, step).Some? && Inv(Apply(s, step).value)
  {
    TimerModel.StopInv(s.timer);
  }

  // ---------- Runs ----------

  predicate Legal(s: Req, steps: seq<Step>)
    decreases |steps|
  {
    steps == [] ||
    (&& CanStep(s, steps[0])
     && (Apply(s, steps[0]).Some? ==> Legal(Apply(s, steps[0]).value, steps[1..])))
  }

  function Run(s: Req, steps: seq<Step>): Option<Req>
    requires Legal(s, steps)
    decreases |steps|
  {
    if steps == [] then Some(s)
    else
      var r :- Apply(s, steps[0]);
      Run(r, steps[1..])
  }

  predicate NoNegative(steps: seq<Step>) {
    forall step <- steps :: step.SetIvl? ==> step.ivl >= 0
  }

  lemma IvlKept(s: Req, step: Step)
    requires Inv(s) && CanStep(s, step) && Apply(s, step).Some?
    ensures Apply(s, step).value.ivl == if step.SetIvl? then step.ivl else s.ivl
  {
    match step
    case PipeIn(arrived) => InIvl(s.(queue := s.queue + arrived), Pick(0, false));
    case Worker(w, pick) =>
      var r := s.(timer := TimerModel.Work(s.timer, w).value);
      TimerModel.WorkInv(s.timer, w);
      if r.timer.events != [] { WorkerInv(s, w, pick); DrainIvl(r, pick); }
    case _ =>
  }

  lemma {:induction false} InIvl(s: Req, pick: Pick)
    ensures In(s, pick).Some? ==> In(s, pick).value.ivl == s.ivl
    decreases |s.queue|
  {
    if s.queue != [] { InIvl(Take(s), pick); }
  }

  lemma {:induction false} DrainIvl(s: Req, pick: Pick)
    ensures Drain(s, pick).Some? ==> Drain(s, pick).value.ivl == s.ivl
    decreases |s.timer.events|
  {
    if s.timer.events != [] {
      var r := ReqModel.Feed(s.(timer := s.timer.(events := s.timer.events[1..])), OnTimer(s.timer.events[0]), pick);
      if r.Some? && |r.value.timer.events| < |s.timer.events| { DrainIvl(r.value, pick); }
    }
  }

  /** In every run without negative intervals, of any length and any interleaving of calls,
      pipe events, worker steps and a stop, nothing aborts and the invariant holds at the
      end: the resend timer runs exactly in ACTIVE and is idle or stopping where it should
      be, `sent_to` is set exactly in ACTIVE, and the stop is reported at most once. */
  lemma {:induction false} RunSafe(s: Req, steps: seq<Step>)
    requires Inv(s) && s.ivl >= 0 && Legal(s, steps) && NoNegative(steps)
    ensures Run(s, steps).Some? && Inv(Run(s, steps).value)
    decreases |steps|
  {
    if steps != [] {
      StepInv(s, steps[0]);
      IvlKept(s, steps[0]);
      assert steps[0] in steps;
      assert forall step :: step in steps[1..] ==> step in steps;
      RunSafe(Apply(s, steps[0]).value, steps[1..]);
    }
  }

  /** After any such run that ends in DONE: the reply to the current request was accepted
      in ACTIVE, and crecv returns it exactly when the messages taken off the queue since
      have left it there, which is so when there are none. */
  lemma DoneDelivers(id: word, steps: seq<Step>)
    requires Legal(Init(id), steps) && NoNegative(steps)
    ensures Run(Init(id), steps).Some?
    ensures var s := Run(Init(id), steps).value;
      s.state == DONE && s.fsm == Active ==>
        && s.acceptedId == WithTop(s.id)
        && s.request.hdr == PutL(s.acceptedId)
        && (CRecvResult(s) == Got(Holds(s.accepted)) <==>
              s.later == [] || TakenFor(s.id, s.later[|s.later| - 1]) == Holds(s.accepted))
  {
    InitInv(id);
    RunSafe(Init(id), steps);
  }

  // ---------- The one place where the reply gets lost ----------

  /** A message with another id that arrives in DONE releases the accepted reply, and crecv
      returns the released message (req.c:160, req.c:184-186). */
  lemma StaleReplyClobbers(s: Req, d: Delivery)
    requires s.fsm == Active && s.state == DONE && s.queue == []
    requires TakenFor(s.id, d) == Released
    ensures CanStep(s, PipeIn([d])) && Apply(s, PipeIn([d])).Some?
    ensures var r := Apply(s, PipeIn([d])).value;
      r.state == DONE && r.accepted == s.accepted && CRecvResult(r) == Got(Released)
  {
    var q := s.(queue := [] + [d]);
    assert q.queue[1..] == [];
    assert In(Take(q), Pick(0, false)) == Some(Take(q));
  }

  // A step in front of a run.
  lemma Onward(s: Req, step: Step, t: Req, rest: seq<Step>)
    requires CanStep(s, step) && Apply(s, step) == Some(t) && Legal(t, rest)
    ensures Legal(s, [step] + rest) && Run(s, [step] + rest) == Run(t, rest)
  {
    assert ([step] + rest)[1..] == rest;
  }

  lemma NoMore(s: Req)
    ensures Legal(s, []) && Run(s, []) == Some(s)
  {
  }

  const FIRST := Pick(0, false)

  // A socket that has sent a request to its only pipe.
  function Asked(id: word, body: seq<byte>): Req {
    Submit(Init(id), body).(
      ready := {0}, state := ACTIVE, sentTo := Some(0), sent := [(0, Submit(Init(id), body).request)],
      timer := TimerModel.INIT.(fsm := Active, state := Active, timeout := 60000, tasks := [StartTask]))
  }

  lemma AskedIs(id: word, body: seq<byte>)
    ensures var s := Init(id).(ready := {0});
      && CanStep(Init(id), PipeOut(0, FIRST)) && Apply(Init(id), PipeOut(0, FIRST)) == Some(s)
      && CanStep(s, CSend(body, FIRST)) && Apply(s, CSend(body, FIRST)) == Some(Asked(id, body))
  {
    var s := Init(id).(ready := {0});
    var none: set<nat> := {};
    assert none + {0} == {0};
    assert [] + [(0 as nat, Submit(s, body).request)] == [(0 as nat, Submit(s, body).request)];
    assert [] + [StartTask] == [StartTask];
    assert TimerModel.Start(TimerModel.INIT, 60000) == Some(Asked(id, body).timer);
  }

  // The reply of a pipe that does not parse.
  function ReplyTo(id: word, answer: seq<byte>): Delivery {
    Delivery(false, Msg([], PutL(WithTop(id)) + answer))
  }

  lemma ReplyFits(id: word, answer: seq<byte>)
    ensures XReq.Split(ReplyTo(id, answer)) == Some(Msg(PutL(WithTop(id)), answer))
    ensures Fits(id, Msg(PutL(WithTop(id)), answer))
  {
    hide PutL, GetL;
    var d := ReplyTo(id, answer);
    GetPut(WithTop(id), []);
    assert PutL(WithTop(id)) + [] == PutL(WithTop(id));
    assert d.msg.body[..4] == PutL(WithTop(id)) && d.msg.body[4..] == answer;
  }

  // That socket with the reply accepted and the timer stopping.
  function Answered(id: word, body: seq<byte>, answer: seq<byte>): Req {
    var s := Asked(id, body);
    s.(state := STOPPING_TIMER, sentTo := None, reply := Holds(Msg([], answer)), accepted := Msg([], answer),
       acceptedId := WithTop(s.id),
       timer := s.timer.(fsm := Stopping, state := Stopping, tasks := [StartTask, StopTask]))
  }

  lemma AnsweredIs(id: word, body: seq<byte>, answer: seq<byte>)
    ensures var s := Asked(id, body);
      Apply(s, PipeIn([ReplyTo(s.id, answer)])) == Some(Answered(id, body, answer))
  {
    hide PutL, GetL, ReplyTo;
    var s := Asked(id, body);
    var d := ReplyTo(s.id, answer);
    ReplyFits(s.id, answer);
    GetPut(WithTop(s.id), []);
    assert PutL(WithTop(s.id)) + [] == PutL(WithTop(s.id));
    assert [] + [d] == [d] && [d][1..] == [];
    assert [StartTask] + [StopTask] == [StartTask, StopTask];
  }

  // The worker runs both tasks of the timer, and the socket is done.
  lemma WorkerFinishes(s: Req, rest: seq<Step>) returns (steps: seq<Step>, done: Req)
    requires s.fsm == Active && s.state == STOPPING_TIMER
    requires s.timer == TimerModel.INIT.(
      fsm := Stopping, state := Stopping, timeout := 60000, tasks := [StartTask, StopTask])
    requires Legal(s.(state := DONE, timer := TimerModel.INIT.(timeout := 60000)), rest) && s.ready == {0}
    ensures done == s.(state := DONE, timer := TimerModel.INIT.(timeout := 60000))
    ensures Legal(s, steps + rest) && Run(s, steps + rest) == Run(done, rest)
    ensures NoNegative(steps)
  {
    hide Legal, Run, Apply;
    done := s.(state := DONE, timer := TimerModel.INIT.(timeout := 60000));
    var s1 := s.(timer := s.timer.(tasks := [], batch := [StartTask, StopTask]));
    var s2 := s1.(timer := s1.timer.(batch := [StopTask], hand := Some(StartTask)));
    var s3 := s2.(timer := s2.timer.(hand := None));
    var s4 := s3.(timer := s3.timer.(batch := [], hand := Some(StopTask)));
    assert s1.timer.batch[1..] == [StopTask] && s3.timer.batch[1..] == [];
    WorkerStepIs(s, TakeBatch, s1);
    WorkerStepIs(s1, PopTask, s2);
    WorkerStepIs(s2, RunTask, s3);
    WorkerStepIs(s3, PopTask, s4);
    LastTask(s4, done);
    var last := [Worker(RunTask, FIRST)] + rest;
    var pop := [Worker(PopTask, FIRST)] + last;
    var first := [Worker(RunTask, FIRST)] + pop;
    var popped := [Worker(PopTask, FIRST)] + first;
    Onward(s4, Worker(RunTask, FIRST), done, rest);
    Onward(s3, Worker(PopTask, FIRST), s4, last);
    Onward(s2, Worker(RunTask, FIRST), s3, pop);
    Onward(s1, Worker(PopTask, FIRST), s2, first);
    Onward(s, Worker(TakeBatch, FIRST), s1, popped);
    steps := [Worker(TakeBatch, FIRST), Worker(PopTask, FIRST), Worker(RunTask, FIRST),
              Worker(PopTask, FIRST), Worker(RunTask, FIRST)];
    assert steps + rest == [Worker(TakeBatch, FIRST)] + popped;
  }

  lemma WorkerStepIs(s: Req, w: WorkerStep, t: Req)
    requires CanWork(s.timer, w) && TimerModel.Work(s.timer, w) == Some(t.timer)
    requires t == s.(timer := t.timer) && t.timer.events == [] && s.ready == {0}
    ensures CanStep(s, Worker(w, FIRST)) && Apply(s, Worker(w, FIRST)) == Some(t)
  {
  }

  lemma LastTask(s: Req, t: Req)
    requires s.fsm == Active && s.state == STOPPING_TIMER && s.ready == {0}
    requires s.timer == TimerModel.INIT.(
      fsm := Stopping, state := Stopping, timeout := 60000, hand := Some(StopTask))
    requires t == s.(state := DONE, timer := TimerModel.INIT.(timeout := 60000))
    ensures CanStep(s, Worker(RunTask, FIRST)) && Apply(s, Worker(RunTask, FIRST)) == Some(t)
  {
    var fed := t.timer.(events := [Stopped]);
    assert [] + [Stopped] == [Stopped];
    assert TimerModel.Work(s.timer, RunTask) == Some(fed);
    assert [Stopped][1..] == [];
    assert Drain(s.(timer := fed), FIRST) == Some(t);
  }

  /** So it happens: a request, its reply, the worker's five steps, and a message that is not
      for the request. */
  lemma StaleReplyReached(id: word, body: seq<byte>, answer: seq<byte>, d: Delivery) returns (steps: seq<Step>)
    requires TakenFor((id + 1) % 0x1_0000_0000, d) == Released
    ensures Legal(Init(id), steps) && NoNegative(steps) && Run(Init(id), steps).Some?
    ensures var s := Run(Init(id), steps).value;
      s.state == DONE && s.accepted == Msg([], answer) && CRecvResult(s) == Got(Released)
  {
    hide Legal, Run, PutL, GetL, Apply, CRecvResult, TakenFor;
    var sent := Asked(id, body);
    var received := Answered(id, body, answer);
    var done := received.(state := DONE, timer := TimerModel.INIT.(timeout := 60000));
    var last := [PipeIn([d])];
    StaleReplyClobbers(done, d);
    NoMore(Apply(done, last[0]).value);
    Onward(done, last[0], Apply(done, last[0]).value, []);
    assert [last[0]] + [] == last;
    var work, _ := WorkerFinishes(received, last);
    var reply := PipeIn([ReplyTo(sent.id, answer)]);
    AskedIs(id, body);
    AnsweredIs(id, body, answer);
    Onward(sent, reply, received, work + last);
    Onward(Init(id).(ready := {0}), CSend(body, FIRST), sent, [reply] + (work + last));
    Onward(Init(id), PipeOut(0, FIRST), Init(id).(ready := {0}), [CSend(body, FIRST)] + ([reply] + (work + last)));
    steps := [PipeOut(0, FIRST)] + ([CSend(body, FIRST)] + ([reply] + (work + last)));
  }

  /** A run that sends with a negative interval aborts. */
  lemma NegativeIntervalAborts(id: word)
    ensures var steps := [SetIvl(-1), PipeOut(0, Pick(0, false)), CSend([], Pick(0, false))];
      Legal(Init(id), steps) && Run(Init(id), steps) == None
  {
    var rest := [CSend([], Pick(0, false))];
    var s1 := Apply(Init(id), SetIvl(-1)).value;
    var s2 := Apply(s1, PipeOut(0, Pick(0, false))).value;
    assert s2.ready == {0} && s2.state == PASSIVE && s2.ivl == -1;
    assert Apply(s2, rest[0]) == None;
    assert Legal(s2, rest) && Run(s2, rest) == None;
    var rest1 := [PipeOut(0, Pick(0, false))] + rest;
    assert rest1[1..] == rest;
    assert Legal(s1, rest1) && Run(s1, rest1) == None;
    assert [SetIvl(-1), PipeOut(0, Pick(0, false)), CSend([], Pick(0, false))] == [SetIvl(-1)] + rest1;
    assert ([SetIvl(-1)] + rest1)[1..] == rest1;
  }

  // ---------- Stopping ----------

  /** Once the socket is being stopped the worker always has a step to take, no step fails,
      each brings the timer closer to idle, and the one that makes it idle reports the
      stop.  So the stop is reported exactly once, after at most Rank steps. */
  lemma ShutdownProgress(s: Req, pick: Pick)
    requires Inv(s) && s.fsm == Stopping && (s.ready != {} ==> pick.pipe in s.ready)
    ensures exists w :: CanStep(s, Worker(w, pick))
    ensures forall w :: CanStep(s, Worker(w, pick)) ==>
      var r := Apply(s, Worker(w, pick));
      && r.Some? && Inv(r.value) && Rank(r.value.timer) < Rank(s.timer)
      && (r.value.fsm == Stopping || (r.value.fsm == Idle && r.value.reports == 1))
  {
    TimerModel.StoppingProgress(s.timer);
    var step :| CanWork(s.timer, step);
    assert CanStep(s, Worker(step, pick));
    forall w | CanStep(s, Worker(w, pick))
      ensures var r := Apply(s, Worker(w, pick));
        && r.Some? && Inv(r.value) && Rank(r.value.timer) < Rank(s.timer)
        && (r.value.fsm == Stopping || (r.value.fsm == Idle && r.value.reports == 1))
    {
      WorkerInv(s, w, pick);
      TimerModel.WorkInv(s.timer, w);
      var timer := TimerModel.Work(s.timer, w).value;
      if timer.events == [] {
        DrainNothing(s.(timer := timer), pick);
      } else {
        DrainOne(s.(timer := timer), pick);
      }
    }
  }
}

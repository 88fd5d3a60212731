/** The REQ socket (src/protocols/reqrep/req.c) with its resend timer and the worker
    thread, as steps on one state.  Each step is one stretch of code under the context
    mutex (or one step of the worker outside it), including the events drained before
    the mutex is given back.  None is a failed assertion or one of the bad-action,
    bad-source and bad-state aborts. */
module ReqModel {
  import opened Bytes
  import opened Wire
  import opened TimerModel
  import XReq

  datatype State =
    | IDLE | PASSIVE | DELAYED | ACTIVE | TIMED_OUT | CANCELLING | STOPPING_TIMER | DONE | STOPPING

  // The message in `task.reply`: a message, or one that has been terminated already.
  datatype Slot = Holds(msg: Msg) | Released

  datatype Req = Req(
    fsm: FsmState,
    state: State,
    id: word,
    request: Msg,
    reply: Slot,
    sentTo: Option<nat>,
    ivl: int,
    ready: set<nat>,        // the load balancer: pipes that can be written to
    queue: seq<Delivery>,   // the fair queue: messages in the order it yields them
    timer: Timer,
    // History.
    sent: seq<(nat, Msg)>,  // requests handed to a pipe, each with the pipe
    reports: nat,           // calls of grid_sockbase_stopped
    accepted: Msg,          // the reply that ended ACTIVE, as it was accepted
    acceptedId: word,       // the request id it carried
    later: seq<Delivery>)   // messages taken off the queue since

  const EMPTY := Msg([], [])

  // grid_req_init, after the machine has been started.
  function Init(id: word): Req {
    Req(Active, PASSIVE, id, EMPTY, Holds(EMPTY), None, 60000, {}, [], TimerModel.INIT, [], 0, EMPTY, 0, [])
  }

  predicate InProgress(s: Req) { s.state != IDLE && s.state != PASSIVE && s.state != STOPPING }

  datatype Action = IN | OUT | SENT | RECEIVED | PIPE_RM

  datatype Source = OnAction(action: Action) | OnTimer(event: Event)

  // The pipe the load balancer picks, and whether it is full afterwards.
  datatype Pick = Pick(pipe: nat, release: bool)

  // ---------- grid_req_action_send ----------

  function ActionSend(s: Req, allowDelay: bool, pick: Pick): Option<Req> {
    if s.ready == {} then
      if allowDelay then Some(s.(state := DELAYED)) else None
    else
      var timer :- TimerModel.Start(s.timer, s.ivl);
      Some(s.(timer := timer, sentTo := Some(pick.pipe), state := ACTIVE, sent := s.sent + [(pick.pipe, s.request)],
              ready := if pick.release then s.ready - {pick.pipe} else s.ready))
  }

  // grid_timer_stop, then forget the pipe and change state.
  function StopTimer(s: Req, state: State): Option<Req> {
    var timer :- TimerModel.Stop(s.timer);
    Some(s.(timer := timer, sentTo := None, state := state))
  }

  // ---------- grid_req_handler ----------

  function Handler(s: Req, src: Source, pick: Pick): Option<Req> {
    match (s.state, src)
    case (PASSIVE, OnAction(SENT)) => ActionSend(s, true, pick)
    case (DELAYED, OnAction(OUT)) => ActionSend(s, false, pick)
    case (DELAYED, OnAction(SENT)) => Some(s)
    case (ACTIVE, OnAction(IN)) => StopTimer(s, STOPPING_TIMER)
    case (ACTIVE, OnAction(SENT)) => StopTimer(s, CANCELLING)
    case (ACTIVE, OnAction(PIPE_RM)) => StopTimer(s, TIMED_OUT)
    case (ACTIVE, OnTimer(Timeout)) => StopTimer(s, TIMED_OUT)
    case (TIMED_OUT, OnTimer(Stopped)) => ActionSend(s, true, pick)
    case (TIMED_OUT, OnAction(SENT)) => Some(s.(state := CANCELLING))
    case (CANCELLING, OnTimer(Stopped)) => ActionSend(s, true, pick)
    case (CANCELLING, OnAction(SENT)) => Some(s)
    case (STOPPING_TIMER, OnTimer(Stopped)) => Some(s.(state := DONE))
    case (STOPPING_TIMER, OnAction(SENT)) => Some(s.(state := CANCELLING))
    case (DONE, OnAction(RECEIVED)) => Some(s.(state := PASSIVE))
    case (DONE, OnAction(SENT)) => ActionSend(s, true, pick)
    case (_, _) => None
  }

  // grid_req_shutdown in the STOPPING state, and the end of it.
  function ShutdownStep(s: Req): Option<Req> {
    if s.state != STOPPING then None
    else if !TimerModel.IsIdle(s.timer) then Some(s)
    else if s.fsm != Stopping then None
    else Some(s.(state := IDLE, fsm := Idle, reports := s.reports + 1))
  }

  // grid_req_stop: grid_fsm_stop and grid_req_shutdown on GRID_FSM_STOP.
  function StopReq(s: Req): Option<Req> {
    if s.fsm != Active then Some(s)
    else
      var timer :- TimerModel.Stop(s.timer);
      ShutdownStep(s.(fsm := Stopping, timer := timer, state := STOPPING))
  }

  // grid_fsm_feed.
  function Feed(s: Req, src: Source, pick: Pick): Option<Req> {
    if s.fsm != Stopping then Handler(s, src, pick) else ShutdownStep(s)
  }

  // The events of the timer are processed before the context is left (ctx.c:57-64).
  function Drain(s: Req, pick: Pick): Option<Req>
    decreases |s.timer.events|
  {
    if s.timer.events == [] then Some(s)
    else
      var e := s.timer.events[0];
      var r :- Feed(s.(timer := s.timer.(events := s.timer.events[1..])), OnTimer(e), pick);
      if |r.timer.events| < |s.timer.events| then Drain(r, pick) else None
  }

  // ---------- grid_req_in ----------

  // The reply is for the request that is being processed.
  predicate Fits(id: word, m: Msg) {
    && |m.hdr| == 4
    && GetL(m.hdr) >= TOP
    && GetL(m.hdr) == WithTop(id)
  }

  // What a message taken off the queue leaves in `task.reply` while the request with
  // this id is in progress.
  function TakenFor(id: word, d: Delivery): Slot {
    match XReq.Split(d)
    case None => Released
    case Some(m) => if Fits(id, m) then Holds(Msg([], m.body)) else Released
  }

  function Taken(s: Req, d: Delivery): Slot {
    if InProgress(s) then TakenFor(s.id, d) else Released
  }

  function Take(s: Req): Req
    requires s.queue != []
  {
    s.(queue := s.queue[1..], reply := Taken(s, s.queue[0]), later := s.later + [s.queue[0]])
  }

  // The loop at req.c:157-200.
  function In(s: Req, pick: Pick): Option<Req>
    decreases |s.queue|
  {
    if s.queue == [] then Some(s)
    else
      var m := XReq.Split(s.queue[0]);
      if m == None then Some(Take(s))
      else if !InProgress(s) || !Fits(s.id, m.value) then In(Take(s), pick)
      else if s.state == ACTIVE then
        var accepted := Msg([], m.value.body);
        Feed(Take(s).(accepted := accepted, acceptedId := GetL(m.value.hdr), later := []), OnAction(IN), pick)
      else Some(Take(s))
  }

  // ---------- Steps ----------

  datatype Step =
    | CSend(body: seq<byte>, pick: Pick)
    | CRecv
    | PipeIn(arrived: seq<Delivery>)
    | PipeOut(pipe: nat, pick: Pick)
    | PipeRm(pipe: nat)
    | SetIvl(ivl: int)
    | StopSocket
    | Worker(step: WorkerStep, pick: Pick)

  // csend: a new id, a new request.
  function Submit(s: Req, body: seq<byte>): Req {
    var id: word := (s.id + 1) % 0x1_0000_0000;
    s.(id := id, request := Msg(PutL(WithTop(id)), body))
  }

  function Apply(s: Req, step: Step): Option<Req>
    requires CanStep(s, step)
  {
    match step
    case CSend(body, pick) =>
      Feed(Submit(s, body), OnAction(SENT), pick)
    case CRecv =>
      if !InProgress(s) || s.state != DONE then Some(s)
      else Feed(s.(reply := Holds(EMPTY)), OnAction(RECEIVED), Pick(0, false))
    case PipeIn(arrived) =>
      In(s.(queue := s.queue + arrived), Pick(0, false))
    case PipeOut(pipe, pick) =>
      var r := s.(ready := s.ready + {pipe});
      if r.state == DELAYED then Feed(r, OnAction(OUT), pick) else Some(r)
    case PipeRm(pipe) =>
      var r := s.(ready := s.ready - {pipe});
      if r.sentTo == Some(pipe) then Feed(r, OnAction(PIPE_RM), Pick(0, false)) else Some(r)
    case SetIvl(ivl) => Some(s.(ivl := ivl))
    case StopSocket => StopReq(s)
    case Worker(w, pick) =>
      var timer :- TimerModel.Work(s.timer, w);
      Drain(s.(timer := timer), pick)
  }

  // What crecv hands to the user.
  datatype Received = EFSM | EAGAIN | Got(slot: Slot)

  function CRecvResult(s: Req): Received {
    if !InProgress(s) then EFSM else if s.state != DONE then EAGAIN else Got(s.reply)
  }

  // Until the socket is stopped anything may happen; afterwards only the worker runs.
  // The load balancer picks a pipe that can be written to.
  predicate CanStep(s: Req, step: Step) {
    match step
    case CSend(_, pick) => s.fsm == Active && (s.ready != {} ==> pick.pipe in s.ready)
    case PipeOut(pipe, pick) => s.fsm == Active && pick.pipe in s.ready + {pipe}
    case Worker(w, pick) => CanWork(s.timer, w) && (s.ready != {} ==> pick.pipe in s.ready)
    case StopSocket => true
    case _ => s.fsm == Active
  }
}

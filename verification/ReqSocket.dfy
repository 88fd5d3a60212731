/** The REQ socket object (src/protocols/reqrep/req.c), updated in place as ReqModel says.
    The calls require what StepInv shows to be needed: that they do not start the timer with
    a negative interval.  No assertion or unexpected event of the source is then reachable. */
module ReqSocket {
  import opened Bytes
  import opened Wire
  import opened TimerModel
  import opened ReqModel
  import ReqProofs
  import Timer
  import XReq

  class ReqSocket {
    const timer: Timer.TimerObject
    var fsm: FsmState
    var state: State
    var id: word
    var request: Msg
    var reply: Slot
    var sentTo: Option<nat>
    var ivl: int
    var ready: set<nat>
    var queue: seq<Delivery>
    var sent: seq<(nat, Msg)>
    var reports: nat
    ghost var accepted: Msg
    ghost var acceptedId: word
    ghost var later: seq<Delivery>

    ghost function View(): Req
      reads this, timer
    {
      Req(fsm, state, id, request, reply, sentTo, ivl, ready, queue, timer.View(), sent, reports,
          accepted, acceptedId, later)
    }

    // grid_req_init.
    constructor (random: word)
      ensures View() == Init(random) && ReqProofs.Inv(View()) && fresh(timer)
    {
      timer := new Timer.TimerObject();
      fsm, state, id, request, reply, sentTo, ivl := Active, PASSIVE, random, EMPTY, Holds(EMPTY), None, 60000;
      ready, queue, sent, reports := {}, [], [], 0;
      accepted, acceptedId, later := EMPTY, 0, [];
      new;
      ReqProofs.InitInv(random);
    }

    // grid_req_inprogress.
    function Busy(): bool
      reads this
    {
      state != IDLE && state != PASSIVE && state != STOPPING
    }

    // grid_req_action_send.
    method ActionSend(allowDelay: bool, pick: Pick)
      requires ReqModel.ActionSend(View(), allowDelay, pick).Some?
      modifies this, timer
      ensures Some(View()) == ReqModel.ActionSend(old(View()), allowDelay, pick)
    {
      if ready == {} {
        assert allowDelay;
        state := DELAYED;
        return;
      }
      timer.Start(ivl);
      sentTo := Some(pick.pipe);
      state := ACTIVE;
      sent := sent + [(pick.pipe, request)];
      if pick.release { ready := ready - {pick.pipe}; }
    }

    method StopTimer(next: State)
      requires ReqModel.StopTimer(View(), next).Some?
      modifies this, timer
      ensures Some(View()) == ReqModel.StopTimer(old(View()), next)
    {
      timer.Stop();
      sentTo := None;
      state := next;
    }

    // grid_req_handler.
    method Handler(src: ReqModel.Source, pick: Pick)
      requires ReqModel.Handler(View(), src, pick).Some?
      modifies this, timer
      ensures Some(View()) == ReqModel.Handler(old(View()), src, pick)
    {
      match state
      case PASSIVE => ActionSend(true, pick);
      case DELAYED => if src == OnAction(OUT) { ActionSend(false, pick); }
      case ACTIVE =>
        if src == OnAction(IN) { StopTimer(STOPPING_TIMER); }
        else if src == OnAction(SENT) { StopTimer(CANCELLING); }
        else { StopTimer(TIMED_OUT); }
      case TIMED_OUT =>
        if src == OnAction(SENT) { state := CANCELLING; } else { ActionSend(true, pick); }
      case CANCELLING => if src != OnAction(SENT) { ActionSend(true, pick); }
      case STOPPING_TIMER => state := if src == OnAction(SENT) then CANCELLING else DONE;
      case DONE =>
        if src == OnAction(RECEIVED) { state := PASSIVE; } else { ActionSend(true, pick); }
    }

    // grid_req_shutdown in the STOPPING state.
    method ShutdownStep()
      requires ReqModel.ShutdownStep(View()).Some?
      modifies this
      ensures Some(View()) == ReqModel.ShutdownStep(old(View()))
    {
      if !IsIdle(timer.View()) { return; }
      state := IDLE;
      fsm := Idle;
      reports := reports + 1;
    }

    // grid_fsm_feed.
    method Feed(src: ReqModel.Source, pick: Pick)
      requires ReqModel.Feed(View(), src, pick).Some?
      modifies this, timer
      ensures Some(View()) == ReqModel.Feed(old(View()), src, pick)
    {
      if fsm != Stopping { Handler(src, pick); } else { ShutdownStep(); }
    }

    // The queue of events, drained before the context is left (ctx.c:57-64).
    method Drain(pick: Pick)
      requires ReqModel.Drain(View(), pick).Some?
      modifies this, timer
      ensures Some(View()) == ReqModel.Drain(old(View()), pick)
    {
      hide ReqModel.Feed;
      while timer.events != []
        invariant ReqModel.Drain(View(), pick) == ReqModel.Drain(old(View()), pick)
        invariant ReqModel.Drain(View(), pick).Some?
        decreases |timer.events|
      {
        var e := timer.events[0];
        timer.events := timer.events[1..];
        Feed(OnTimer(e), pick);
      }
    }

    // Taking a message off the fair queue, as far as `task.reply` goes.
    method Take()
      requires queue != []
      modifies this`queue, this`reply, this`later
      ensures View() == ReqModel.Take(old(View()))
    {
      var d := queue[0];
      var m := XReq.Split(d);
      queue := queue[1..];
      reply := if Busy() && m.Some? && Fits(id, m.value) then Holds(Msg([], m.value.body)) else Released;
      later := later + [d];
    }

    // The loop of grid_req_in.
    method In(pick: Pick)
      requires ReqModel.In(View(), pick).Some?
      modifies this, timer
      ensures Some(View()) == ReqModel.In(old(View()), pick)
    {
      hide ReqModel.Feed, ReqModel.Take;
      while queue != []
        invariant ReqModel.In(View(), pick) == ReqModel.In(old(View()), pick)
        invariant ReqModel.In(View(), pick).Some?
        decreases |queue|
      {
        ghost var was := View();
        ghost var size := |queue|;
        TakeShortens(was);
        var m := XReq.Split(queue[0]);
        Take();
        if m == None { return; }
        if !Busy() || !Fits(id, m.value) { continue; }
        if state == ACTIVE {
          accepted, acceptedId, later := Msg([], m.value.body), GetL(m.value.hdr), [];
          Feed(OnAction(IN), pick);
        }
        return;
      }
    }

    lemma TakeShortens(s: Req)
      requires s.queue != []
      ensures var r := ReqModel.Take(s); |r.queue| < |s.queue| && r.state == s.state && r.id == s.id
    {
    }

    // ---------- The calls ----------

    /** grid_req_csend. */
    method CSend(body: seq<byte>, pick: Pick)
      requires ReqProofs.Inv(View()) && CanStep(View(), Step.CSend(body, pick))
      requires !(ReqProofs.Sends(View(), Step.CSend(body, pick)) && ivl < 0)
      modifies this, timer
      ensures Some(View()) == Apply(old(View()), Step.CSend(body, pick)) && ReqProofs.Inv(View())
    {
      hide ReqProofs.Inv, ReqModel.Feed;
      ReqProofs.StepInv(View(), Step.CSend(body, pick));
      id := (id + 1) % 0x1_0000_0000;
      request := Msg(PutL(WithTop(id)), body);
      Feed(OnAction(SENT), pick);
    }

    /** grid_req_crecv. */
    method CRecv() returns (r: Received)
      requires ReqProofs.Inv(View()) && fsm == Active
      modifies this, timer
      ensures Some(View()) == Apply(old(View()), Step.CRecv) && ReqProofs.Inv(View())
      ensures r == CRecvResult(old(View()))
    {
      hide ReqProofs.Inv, ReqModel.Feed;
      ReqProofs.StepInv(View(), Step.CRecv);
      if !Busy() { return EFSM; }
      if state != DONE { return EAGAIN; }
      r := Got(reply);
      reply := Holds(EMPTY);
      Feed(OnAction(RECEIVED), Pick(0, false));
    }

    /** grid_req_in, when messages have arrived. */
    method PipeIn(arrived: seq<Delivery>)
      requires ReqProofs.Inv(View()) && fsm == Active
      modifies this, timer
      ensures Some(View()) == Apply(old(View()), Step.PipeIn(arrived)) && ReqProofs.Inv(View())
    {
      hide ReqProofs.Inv, ReqModel.In;
      ReqProofs.StepInv(View(), Step.PipeIn(arrived));
      queue := queue + arrived;
      In(Pick(0, false));
    }

    /** grid_req_out. */
    method PipeOut(pipe: nat, pick: Pick)
      requires ReqProofs.Inv(View()) && CanStep(View(), Step.PipeOut(pipe, pick))
      requires !(ReqProofs.Sends(View(), Step.PipeOut(pipe, pick)) && ivl < 0)
      modifies this, timer
      ensures Some(View()) == Apply(old(View()), Step.PipeOut(pipe, pick)) && ReqProofs.Inv(View())
    {
      hide ReqProofs.Inv, ReqModel.Feed;
      ReqProofs.StepInv(View(), Step.PipeOut(pipe, pick));
      ready := ready + {pipe};
      if state == DELAYED { Feed(OnAction(OUT), pick); }
    }

    /** grid_req_rm. */
    method PipeRm(pipe: nat)
      requires ReqProofs.Inv(View()) && fsm == Active
      modifies this, timer
      ensures Some(View()) == Apply(old(View()), Step.PipeRm(pipe)) && ReqProofs.Inv(View())
    {
      hide ReqProofs.Inv, ReqModel.Feed;
      ReqProofs.StepInv(View(), Step.PipeRm(pipe));
      ready := ready - {pipe};
      if sentTo == Some(pipe) { Feed(OnAction(PIPE_RM), Pick(0, false)); }
    }

    /** grid_req_stop. */
    method StopSocket()
      requires ReqProofs.Inv(View())
      modifies this, timer
      ensures Some(View()) == Apply(old(View()), Step.StopSocket) && ReqProofs.Inv(View())
    {
      hide ReqProofs.Inv;
      ReqProofs.StepInv(View(), Step.StopSocket);
      if fsm != Active { return; }
      fsm := Stopping;
      timer.Stop();
      state := STOPPING;
      ShutdownStep();
    }

    /** A step of the worker and, if it raises an event, what the socket does about it. */
    method Work(w: WorkerStep, pick: Pick)
      requires ReqProofs.Inv(View()) && CanStep(View(), Step.Worker(w, pick))
      requires !(ReqProofs.Sends(View(), Step.Worker(w, pick)) && ivl < 0)
      modifies this, timer
      ensures Some(View()) == Apply(old(View()), Step.Worker(w, pick)) && ReqProofs.Inv(View())
    {
      ReqProofs.StepInv(View(), Step.Worker(w, pick));
      StepTimer(w);
      Drain(pick);
    }

    method StepTimer(w: WorkerStep)
      requires ReqProofs.Inv(View()) && CanWork(timer.View(), w)
      modifies timer
      ensures Some(timer.View()) == TimerModel.Work(old(timer.View()), w)
    {
      timer.Work(w);
    }
  }
}

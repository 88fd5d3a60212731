/** The SURVEYOR socket object (src/protocols/survey/surveyor.c), updated in place as Surveyor
    says; see ReqSocket for what the calls require. */
module SurveyorSocket {
  import opened Bytes
  import opened Wire
  import opened TimerModel
  import S = Surveyor
  import Timer
  import XReq

  class SurveyorSocket {
    const timer: Timer.TimerObject
    var fsm: FsmState
    var state: S.State
    var id: word
    var tosend: Msg
    var deadline: int
    var timedout: bool
    var queue: seq<Delivery>
    var sent: seq<Msg>
    var reports: nat
    ghost var expiries: nat
    ghost var noticed: nat

    ghost function View(): S.Surveyor
      reads this, timer
    {
      S.Surveyor(fsm, state, id, tosend, deadline, timedout, queue, timer.View(), reports, expiries, noticed, sent)
    }

    // grid_surveyor_init.
    constructor (random: word)
      ensures View() == S.Init(random) && S.Inv(View()) && fresh(timer)
    {
      timer := new Timer.TimerObject();
      fsm, state, id, tosend, deadline, timedout := Active, S.PASSIVE, random, Msg([], []), 1000, false;
      queue, sent, reports, expiries, noticed := [], [], 0, 0, 0;
      new;
      S.InitInv(random);
    }

    // grid_surveyor_inprogress.
    function Busy(): bool
      reads this
    {
      state != S.IDLE && state != S.PASSIVE && state != S.STOPPING
    }

    method Launch()
      requires S.Launch(View()).Some?
      modifies this, timer
      ensures Some(View()) == S.Launch(old(View()))
    {
      sent := sent + [tosend];
      timer.Start(deadline);
      state := S.ACTIVE;
    }

    // grid_surveyor_handler.
    method Handler(src: S.Source)
      requires S.Handler(View(), src).Some?
      modifies this, timer
      ensures Some(View()) == S.Handler(old(View()), src)
    {
      match state
      case PASSIVE => Launch();
      case ACTIVE =>
        timer.Stop();
        if src == S.OnAction(S.CANCEL) {
          state := S.CANCELLING;
        } else {
          state := S.STOPPING_TIMER;
          timedout := true;
          expiries := expiries + 1;
        }
      case CANCELLING => if src != S.OnAction(S.CANCEL) { Launch(); }
      case STOPPING_TIMER => state := if src == S.OnAction(S.CANCEL) then S.CANCELLING else S.PASSIVE;
    }

    // grid_surveyor_shutdown in the STOPPING state.
    method ShutdownStep()
      requires S.ShutdownStep(View()).Some?
      modifies this
      ensures Some(View()) == S.ShutdownStep(old(View()))
    {
      if !IsIdle(timer.View()) { return; }
      state := S.IDLE;
      fsm := Idle;
      reports := reports + 1;
    }

    method Feed(src: S.Source)
      requires S.Feed(View(), src).Some?
      modifies this, timer
      ensures Some(View()) == S.Feed(old(View()), src)
    {
      if fsm != Stopping { Handler(src); } else { ShutdownStep(); }
    }

    method Drain()
      requires S.Drain(View()).Some?
      modifies this, timer
      ensures Some(View()) == S.Drain(old(View()))
    {
      hide S.Feed;
      while timer.events != []
        invariant S.Drain(View()) == S.Drain(old(View())) && S.Drain(View()).Some?
        decreases |timer.events|
      {
        var e := timer.events[0];
        timer.events := timer.events[1..];
        Feed(S.OnTimer(e));
      }
    }

    /** grid_surveyor_send. */
    method Send(body: seq<byte>)
      requires S.Inv(View()) && fsm == Active && !(S.Launches(View(), S.Send(body)) && deadline < 0)
      modifies this, timer
      ensures Some(View()) == S.Apply(old(View()), S.Send(body)) && S.Inv(View())
    {
      hide S.Inv, S.Feed;
      S.StepInv(View(), S.Send(body));
      id := WithTop((id + 1) % 0x1_0000_0000);
      tosend := Msg(PutL(id), body);
      Feed(S.OnAction(if Busy() then S.CANCEL else S.START));
    }

    /** grid_surveyor_recv: the loop drops the responses to other surveys, and gives up at a
        malformed one. */
    method Recv() returns (r: S.Received)
      requires S.Inv(View()) && fsm == Active
      modifies this`queue, this`timedout, this`noticed
      ensures (r, View()) == S.Recv(old(View())) && S.Inv(View())
    {
      hide S.Inv;
      S.StepInv(View(), S.Receive);
      if !Busy() {
        if timedout {
          timedout, noticed := false, noticed + 1;
          return S.ETIMEDOUT;
        }
        return S.EFSM;
      }
      while queue != []
        invariant S.Search(id, queue) == S.Search(id, old(queue))
        decreases |queue|
        modifies this`queue
      {
        var m := XReq.Split(queue[0]);
        queue := queue[1..];
        if m == None { return S.EAGAIN; }
        if S.Fits(id, m.value) { return S.Got(m.value.body); }
      }
      return S.EAGAIN;
    }

    /** grid_surveyor_stop. */
    method StopSocket()
      requires S.Inv(View())
      modifies this, timer
      ensures Some(View()) == S.Apply(old(View()), S.StopSocket) && S.Inv(View())
    {
      hide S.Inv;
      S.StepInv(View(), S.StopSocket);
      if fsm != Active { return; }
      fsm := Stopping;
      timer.Stop();
      state := S.STOPPING;
      ShutdownStep();
    }

    /** A step of the worker and, if it raises an event, what the socket does about it. */
    method Work(w: WorkerStep)
      requires S.Inv(View()) && CanWork(timer.View(), w) && !(S.Launches(View(), S.Worker(w)) && deadline < 0)
      modifies this, timer
      ensures Some(View()) == S.Apply(old(View()), S.Worker(w)) && S.Inv(View())
    {
      S.StepInv(View(), S.Worker(w));
      StepTimer(w);
      Drain();
    }

    method StepTimer(w: WorkerStep)
      requires S.Inv(View()) && CanWork(timer.View(), w)
      modifies timer
      ensures Some(timer.View()) == TimerModel.Work(old(timer.View()), w)
    {
      timer.Work(w);
    }
  }
}

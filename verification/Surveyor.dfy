/** The SURVEYOR socket (src/protocols/survey/surveyor.c) with its deadline timer and the
    worker thread, as steps on one state, and what every run of it keeps.  The conventions
    are those of ReqModel. */
module Surveyor {
  import opened Bytes
  import opened Wire
  import opened TimerModel
  import XReq

  datatype State = IDLE | PASSIVE | ACTIVE | CANCELLING | STOPPING_TIMER | STOPPING

  datatype Surveyor = Surveyor(
    fsm: FsmState,
    state: State,
    id: word,
    tosend: Msg,
    deadline: int,
    timedout: bool,
    queue: seq<Delivery>,
    timer: Timer,
    // History.
    reports: nat,         // calls of grid_sockbase_stopped
    expiries: nat,        // surveys whose deadline passed
    noticed: nat,         // -ETIMEDOUT returned
    sent: seq<Msg>)       // surveys sent

  function Init(id: word): Surveyor {
    Surveyor(Active, PASSIVE, id, Msg([], []), 1000, false, [], TimerModel.INIT, 0, 0, 0, [])
  }

  predicate InProgress(s: Surveyor) { s.state != IDLE && s.state != PASSIVE && s.state != STOPPING }

  datatype Action = START | CANCEL

  datatype Source = OnAction(action: Action) | OnTimer(event: Event)

  // grid_surveyor_resend, then start the timer.
  function Launch(s: Surveyor): Option<Surveyor> {
    var timer :- TimerModel.Start(s.timer, s.deadline);
    Some(s.(timer := timer, state := ACTIVE, sent := s.sent + [s.tosend]))
  }

  function StopTimer(s: Surveyor, state: State): Option<Surveyor> {
    var timer :- TimerModel.Stop(s.timer);
    Some(s.(timer := timer, state := state))
  }

  // grid_surveyor_handler.
  function Handler(s: Surveyor, src: Source): Option<Surveyor> {
    match (s.state, src)
    case (PASSIVE, OnAction(START)) => Launch(s)
    case (ACTIVE, OnAction(CANCEL)) => StopTimer(s, CANCELLING)
    case (ACTIVE, OnTimer(Timeout)) =>
      var r :- StopTimer(s, STOPPING_TIMER);
      Some(r.(timedout := true, expiries := s.expiries + 1))
    case (CANCELLING, OnAction(CANCEL)) => Some(s)
    case (CANCELLING, OnTimer(Stopped)) => Launch(s)
    case (STOPPING_TIMER, OnAction(CANCEL)) => Some(s.(state := CANCELLING))
    case (STOPPING_TIMER, OnTimer(Stopped)) => Some(s.(state := PASSIVE))
    case (_, _) => None
  }

  // grid_surveyor_shutdown.
  function ShutdownStep(s: Surveyor): Option<Surveyor> {
    if s.state != STOPPING then None
    else if !TimerModel.IsIdle(s.timer) then Some(s)
    else if s.fsm != Stopping then None
    else Some(s.(state := IDLE, fsm := Idle, reports := s.reports + 1))
  }

  function StopSurveyor(s: Surveyor): Option<Surveyor> {
    if s.fsm != Active then Some(s)
    else
      var timer :- TimerModel.Stop(s.timer);
      ShutdownStep(s.(fsm := Stopping, timer := timer, state := STOPPING))
  }

  function Feed(s: Surveyor, src: Source): Option<Surveyor> {
    if s.fsm != Stopping then Handler(s, src) else ShutdownStep(s)
  }

  function Drain(s: Surveyor): Option<Surveyor>
    decreases |s.timer.events|
  {
    if s.timer.events == [] then Some(s)
    else
      var e := s.timer.events[0];
      var r :- Feed(s.(timer := s.timer.(events := s.timer.events[1..])), OnTimer(e));
      if |r.timer.events| < |s.timer.events| then Drain(r) else None
  }

  // grid_surveyor_send: a new id with the top bit set; the message is kept until it can
  // be sent.  The raw socket is always ready to send, so -EAGAIN does not occur.
  function Submit(s: Surveyor, body: seq<byte>): Surveyor {
    var id := WithTop((s.id + 1) % 0x1_0000_0000);
    s.(id := id, tosend := Msg(PutL(id), body))
  }

  // ---------- grid_surveyor_recv ----------

  datatype Received = ETIMEDOUT | EFSM | EAGAIN | Got(body: seq<byte>)

  predicate Fits(id: word, m: Msg) { |m.hdr| == 4 && GetL(m.hdr) == id }

  // The loop at surveyor.c:253-273: what it returns, and what is left of the queue.
  function Search(id: word, queue: seq<Delivery>): (Received, seq<Delivery>) {
    if queue == [] then (EAGAIN, [])
    else
      match XReq.Split(queue[0])
      case None => (EAGAIN, queue[1..])
      case Some(m) => if Fits(id, m) then (Got(m.body), queue[1..]) else Search(id, queue[1..])
  }

  function Recv(s: Surveyor): (Received, Surveyor) {
    if !InProgress(s) then
      if s.timedout then (ETIMEDOUT, s.(timedout := false, noticed := s.noticed + 1)) else (EFSM, s)
    else
      var (r, queue) := Search(s.id, s.queue);
      (r, s.(queue := queue))
  }

  // ---------- Steps ----------

  datatype Step =
    | Send(body: seq<byte>)
    | Receive
    | Arrive(arrived: seq<Delivery>)
    | SetDeadline(deadline: int)
    | StopSocket
    | Worker(step: WorkerStep)

  predicate CanStep(s: Surveyor, step: Step) {
    match step
    case Worker(w) => CanWork(s.timer, w)
    case StopSocket => true
    case _ => s.fsm == Active
  }

  function Apply(s: Surveyor, step: Step): Option<Surveyor>
    requires CanStep(s, step)
  {
    match step
    case Send(body) => Feed(Submit(s, body), OnAction(if InProgress(s) then CANCEL else START))
    case Receive => Some(Recv(s).1)
    case Arrive(arrived) => Some(s.(queue := s.queue + arrived))
    case SetDeadline(deadline) => Some(s.(deadline := deadline))
    case StopSocket => StopSurveyor(s)
    case Worker(w) =>
      var timer :- TimerModel.Work(s.timer, w);
      Drain(s.(timer := timer))
  }

  // ---------- The invariant ----------

  ghost predicate Inv(s: Surveyor) {
    && TimerModel.Inv(s.timer) && s.timer.events == []
    && s.noticed + (if s.timedout then 1 else 0) <= s.expiries
    && match s.fsm
       case Active =>
         && s.state != IDLE && s.state != STOPPING && s.reports == 0
         && s.timer.fsm == (if s.state == ACTIVE then Active else if s.state == PASSIVE then Idle else Stopping)
         && (InProgress(s) ==> s.tosend.hdr == PutL(s.id))
         && (s.state == ACTIVE || s.state == STOPPING_TIMER ==>
               s.sent != [] && s.sent[|s.sent| - 1] == s.tosend)
         && (s.state == STOPPING_TIMER ==> s.timedout)
         && (s.state == ACTIVE ==> Ticking(s.timer))
       case Stopping => s.state == STOPPING && s.timer.fsm == Stopping && s.reports == 0
       case Idle => s.state == IDLE && s.timer.fsm == Idle && s.reports == 1
  }

  lemma InitInv(id: word)
    ensures Inv(Init(id)) && Init(id).id == id && Init(id).state == PASSIVE
  {
  }

  // When a step sends the survey, and so starts the timer.
  predicate Launches(s: Surveyor, step: Step) {
    match step
    case Send(_) => s.state == PASSIVE
    case Worker(RunTask) => s.timer.hand == Some(StopTask) && s.fsm == Active && s.state == CANCELLING
    case _ => false
  }

  // What an event of the timer makes of the socket.
  lemma EventInv(was: Surveyor, timer: Timer, e: Event)
    requires Inv(was) && was.timer.fsm == (if e == Stopped then Stopping else Active)
    requires TimerModel.Inv(timer) && timer.events == [] && timer.fsm == (if e == Stopped then Idle else Active)
    ensures var s := was.(timer := timer); var r := Feed(s, OnTimer(e));
      && (r.Some? <==> !(e == Stopped && s.fsm == Active && s.state == CANCELLING && s.deadline < 0))
      && (r.Some? ==> Inv(r.value))
  {
    hide TimerModel.Inv, PutL, Ticking, Wait, Pending, TimerModel.Start, TimerModel.Stop;
    if e == Timeout {
      TimerModel.StopInv(timer);
    } else {
      TimerModel.StartInv(timer, was.deadline);
    }
  }

  lemma CalmTimer(t: Timer)
    requires TimerModel.Inv(t)
    ensures TimerModel.Inv(t.(events := []))
    ensures t.hand == Some(StopTask) ==> t.fsm == Stopping
  {
    assert Pending(t.(events := [])) == Pending(t);
    assert t.hand == Some(StopTask) ==> Pending(t)[0] == StopTask;
  }

  lemma OtherTimer(s: Surveyor, timer: Timer)
    requires Inv(s) && TimerModel.Inv(timer) && timer.fsm == s.timer.fsm && timer.events == []
    requires Ticking(s.timer) ==> Ticking(timer)
    ensures Inv(s.(timer := timer))
  {
  }

  lemma DrainOne(s: Surveyor)
    requires |s.timer.events| == 1
    requires var r := Feed(s.(timer := s.timer.(events := [])), OnTimer(s.timer.events[0]));
      r.Some? ==> r.value.timer.events == []
    ensures Drain(s) == Feed(s.(timer := s.timer.(events := [])), OnTimer(s.timer.events[0]))
  {
    assert s.timer.events[1..] == [];
    var r := Feed(s.(timer := s.timer.(events := [])), OnTimer(s.timer.events[0]));
    assert r.Some? ==> Drain(r.value) == r;
  }

  lemma WorkerInv(s: Surveyor, w: WorkerStep)
    requires Inv(s) && CanStep(s, Worker(w))
    ensures Apply(s, Worker(w)).Some? <==> !(Launches(s, Worker(w)) && s.deadline < 0)
    ensures Apply(s, Worker(w)).Some? ==> Inv(Apply(s, Worker(w)).value)
  {
    hide TimerModel.Inv, TimerModel.Work, Feed;
    TimerModel.WorkInv(s.timer, w);
    var timer := TimerModel.Work(s.timer, w).value;
    CalmTimer(timer);
    CalmTimer(s.timer);
    if timer.events == [] {
      OtherTimer(s, timer);
    } else {
      EventInv(s, timer.(events := []), timer.events[0]);
      DrainOne(s.(timer := timer));
    }
  }

  /** Every step keeps the invariant; it fails an assertion exactly when it would start the
      timer with a negative deadline (surveyor.c:291). */
  lemma StepInv(s: Surveyor, step: Step)
    requires Inv(s) && CanStep(s, step)
    ensures Apply(s, step).Some? <==> !(Launches(s, step) && s.deadline < 0)
    ensures Apply(s, step).Some? ==> Inv(Apply(s, step).value)
  {
    hide TimerModel.Inv, Drain, Search, PutL;
    match step
    case Send(body) => SendInv(s, body);
    case StopSocket => StopInv(s);
    case Worker(w) => WorkerInv(s, w);
    case _ =>
  }

  lemma SendInv(s: Surveyor, body: seq<byte>)
    requires Inv(s) && s.fsm == Active
    ensures Apply(s, Send(body)).Some? <==> !(Launches(s, Send(body)) && s.deadline < 0)
    ensures Apply(s, Send(body)).Some? ==> Inv(Apply(s, Send(body)).value)
  {
    hide TimerModel.Inv, PutL, Ticking, Wait, Pending, TimerModel.Start, TimerModel.Stop;
    TimerModel.StopInv(s.timer);
    TimerModel.StartInv(s.timer, s.deadline);
  }

  lemma StopInv(s: Surveyor)
    requires Inv(s)
    ensures StopSurveyor(s).Some? && Inv(StopSurveyor(s).value)
  {
    hide TimerModel.Inv, PutL;
    TimerModel.StopInv(s.timer);
  }

  /** A survey with a negative deadline aborts. */
  lemma NegativeDeadlineAborts(id: word)
    ensures var s := Apply(Init(id), SetDeadline(-1));
      s.Some? && CanStep(s.value, Send([])) && Apply(s.value, Send([])) == None
  {
  }

  // ---------- Runs ----------

  predicate Legal(s: Surveyor, steps: seq<Step>)
    decreases |steps|
  {
    steps == [] ||
    (&& CanStep(s, steps[0])
     && !(Launches(s, steps[0]) && s.deadline < 0)
     && (Apply(s, steps[0]).Some? ==> Legal(Apply(s, steps[0]).value, steps[1..])))
  }

  function Run(s: Surveyor, steps: seq<Step>): Option<Surveyor>
    requires Legal(s, steps)
    decreases |steps|
  {
    if steps == [] then Some(s)
    else
      var r :- Apply(s, steps[0]);
      Run(r, steps[1..])
  }

  /** No run that never launches a survey with a negative deadline reaches an abort; in
      every state of it -ETIMEDOUT has been returned at most once for every survey that
      expired. */
  lemma {:induction false} RunSafe(s: Surveyor, steps: seq<Step>)
    requires Inv(s) && Legal(s, steps)
    ensures Run(s, steps).Some? && Inv(Run(s, steps).value)
    ensures Run(s, steps).value.noticed <= Run(s, steps).value.expiries
    decreases |steps|
  {
    if steps != [] {
      StepInv(s, steps[0]);
      RunSafe(Apply(s, steps[0]).value, steps[1..]);
    }
  }

  /** What recv answers.  A response is handed over only while a survey is in progress and
      only if it carries the id of the latest send; it is the first such message before a
      malformed one, and the messages in front of it are gone.  Without one, the messages up to
      the malformed one are gone. */
  lemma SearchFinds(id: word, queue: seq<Delivery>)
    ensures var (r, rest) := Search(id, queue);
      && r != ETIMEDOUT && r != EFSM
      && |rest| <= |queue| && rest == queue[|queue| - |rest|..]
      && (r.Got? <==> exists k :: 0 <= k < |queue| && Answer(id, queue, k))
      && (forall k :: 0 <= k < |queue| && Answer(id, queue, k) ==>
            r == Got(XReq.Split(queue[k]).value.body) && rest == queue[k + 1..])
      && (forall k: nat :: GivesUp(id, queue, k) ==> r == EAGAIN && rest == queue[if k < |queue| then k + 1 else k..])
  {
    hide Answer, Search, GivesUp;
    SearchRest(id, queue);
    SearchGot(id, queue);
    forall k | 0 <= k < |queue| && Answer(id, queue, k)
      ensures XReq.Split(queue[k]).Some?
        && Search(id, queue) == (Got(XReq.Split(queue[k]).value.body), queue[k + 1..])
    {
      SearchHits(id, queue, k);
    }
    forall k: nat | GivesUp(id, queue, k)
      ensures k <= |queue| && Search(id, queue) == (EAGAIN, queue[if k < |queue| then k + 1 else k..])
    {
      SearchGivesUp(id, queue, k);
    }
  }

  // The first malformed message is at k, or there is none and k is the end; none in front fits.
  predicate GivesUp(id: word, queue: seq<Delivery>, k: nat) {
    && k <= |queue| && (k < |queue| ==> XReq.Split(queue[k]) == None)
    && forall j :: 0 <= j < k ==> Stale(id, queue[j])
  }

  lemma {:induction false} SearchGivesUp(id: word, queue: seq<Delivery>, k: nat)
    requires GivesUp(id, queue, k)
    ensures k <= |queue| && Search(id, queue) == (EAGAIN, queue[if k < |queue| then k + 1 else k..])
    decreases |queue|
  {
    hide PutL, Fits;
    if k > 0 {
      FitsExact(id, XReq.Split(queue[0]).value);
      assert forall j :: 0 <= j < |queue[1..]| ==> queue[1..][j] == queue[j + 1];
      SearchGivesUp(id, queue[1..], k - 1);
    }
  }

  lemma {:induction false} SearchRest(id: word, queue: seq<Delivery>)
    ensures var (r, rest) := Search(id, queue);
      && r != ETIMEDOUT && r != EFSM
      && |rest| <= |queue| && rest == queue[|queue| - |rest|..]
  {
    if queue != [] { SearchRest(id, queue[1..]); }
  }

  lemma {:induction false} SearchHits(id: word, queue: seq<Delivery>, k: nat)
    requires k < |queue| && Answer(id, queue, k)
    ensures XReq.Split(queue[k]).Some?
    ensures Search(id, queue) == (Got(XReq.Split(queue[k]).value.body), queue[k + 1..])
    decreases |queue|
  {
    hide PutL, Fits;
    if XReq.Split(queue[0]).Some? { FitsExact(id, XReq.Split(queue[0]).value); }
    if k > 0 {
      AnswerTail(id, queue, k - 1);
      SearchHits(id, queue[1..], k - 1);
    }
  }

  lemma {:induction false} SearchGot(id: word, queue: seq<Delivery>)
    ensures Search(id, queue).0.Got? ==> exists k :: 0 <= k < |queue| && Answer(id, queue, k)
  {
    if queue != [] && Search(id, queue).0.Got? {
      var m := XReq.Split(queue[0]);
      FitsExact(id, m.value);
      if Fits(id, m.value) {
        assert Answer(id, queue, 0);
      } else {
        SearchGot(id, queue[1..]);
        var k :| 0 <= k < |queue[1..]| && Answer(id, queue[1..], k);
        AnswerTail(id, queue, k);
      }
    }
  }

  // A response with the id, and nothing else in its header.
  predicate Answers(id: word, d: Delivery) {
    XReq.Split(d).Some? && XReq.Split(d).value.hdr == PutL(id)
  }

  // One with another header.
  predicate Stale(id: word, d: Delivery) {
    XReq.Split(d).Some? && XReq.Split(d).value.hdr != PutL(id)
  }

  lemma FitsExact(id: word, m: Msg)
    ensures Fits(id, m) <==> m.hdr == PutL(id)
  {
    hide PutL, GetL;
    GetPut(id, []);
    assert PutL(id) + [] == PutL(id);
    if Fits(id, m) {
      PutGet(m.hdr);
      assert m.hdr[..4] == m.hdr;
    }
  }

  // The message at k is the first that answers, and none in front of it is malformed.
  predicate Answer(id: word, queue: seq<Delivery>, k: nat)
    requires k < |queue|
  {
    Answers(id, queue[k]) && forall j :: 0 <= j < k ==> Stale(id, queue[j])
  }

  lemma AnswerTail(id: word, queue: seq<Delivery>, k: nat)
    requires k + 1 < |queue|
    ensures Answer(id, queue, k + 1) <==> Stale(id, queue[0]) && Answer(id, queue[1..], k)
  {
    hide Answers, Stale;
    var rest := queue[1..];
    if Answer(id, queue, k + 1) {
      assert forall j :: 0 <= j < k ==> rest[j] == queue[j + 1];
    }
    if Stale(id, queue[0]) && Answer(id, rest, k) {
      forall j | 0 <= j < k + 1 ensures Stale(id, queue[j]) {
        if j > 0 { assert rest[j - 1] == queue[j]; }
      }
    }
  }

  lemma RecvAnswers(s: Surveyor)
    requires Inv(s) && s.fsm == Active
    ensures var r := Recv(s).0;
      && (r == ETIMEDOUT <==> s.state == PASSIVE && s.timedout)
      && (r == EFSM <==> s.state == PASSIVE && !s.timedout)
      && (r.Got? <==> s.state != PASSIVE && exists k :: 0 <= k < |s.queue| && Answer(s.id, s.queue, k))
      && (r == ETIMEDOUT ==> Recv(Recv(s).1).0 == EFSM)
    ensures var (r, t) := Recv(s);
      && (s.state == PASSIVE ==> t.queue == s.queue)
      && (s.state != PASSIVE ==>
            && (forall k :: 0 <= k < |s.queue| && Answer(s.id, s.queue, k) ==>
                  r == Got(XReq.Split(s.queue[k]).value.body) && t == s.(queue := s.queue[k + 1..]))
            && (forall k: nat :: GivesUp(s.id, s.queue, k) ==>
                  r == EAGAIN && t == s.(queue := s.queue[if k < |s.queue| then k + 1 else k..])))
  {
    hide Search, Answer, GivesUp;
    SearchFinds(s.id, s.queue);
  }

  /** A socket that is being stopped always has a worker step to take, and each brings it
      closer to reporting the stop, which it does once. */
  lemma ShutdownProgress(s: Surveyor)
    requires Inv(s) && s.fsm == Stopping
    ensures exists w :: CanStep(s, Worker(w))
    ensures forall w :: CanStep(s, Worker(w)) ==>
      var r := Apply(s, Worker(w));
      && r.Some? && Inv(r.value) && Rank(r.value.timer) < Rank(s.timer)
      && (r.value.fsm == Stopping || (r.value.fsm == Idle && r.value.reports == 1))
  {
    TimerModel.StoppingProgress(s.timer);
    var step :| CanWork(s.timer, step);
    assert CanStep(s, Worker(step));
    forall w | CanStep(s, Worker(w))
      ensures var r := Apply(s, Worker(w));
        && r.Some? && Inv(r.value) && Rank(r.value.timer) < Rank(s.timer)
        && (r.value.fsm == Stopping || (r.value.fsm == Idle && r.value.reports == 1))
    {
      WorkerInv(s, w);
      TimerModel.WorkInv(s.timer, w);
      var timer := TimerModel.Work(s.timer, w).value;
      if timer.events != [] {
        DrainOne(s.(timer := timer));
      }
    }
  }
}

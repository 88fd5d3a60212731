/** Holding, stopping and closing a socket (src/core/sock.c, src/core/global.c): every
    interleaving of API calls, endpoint events, grid_term and grid_close. */
module SockModel {

  datatype Phase = Active | Zombie | StoppingEps | Stopping | Fini

  /** `users` are the API calls in progress that hold the socket.  Endpoints are their ids, in
      the lists of active ones and of those shutting down; `gone` are the deallocated ones.
      The posts of the semaphores and the calls of the protocol's stop function are counted. */
  datatype Sock = Sock(phase: Phase, term: bool, holds: int, users: nat, eps: seq<nat>, sdeps: seq<nat>,
    gone: seq<nat>, eid: nat, hasStop: bool, protoStops: nat, termPosts: nat, relePosts: nat, freed: bool)

  // grid_sock_init: the hold is the caller's.
  function Init(hasStop: bool): Sock {
    Sock(Active, false, 1, 0, [], [], [], 1, hasStop, 0, 0, 0, false)
  }

  datatype Outcome = Crash | Ok(s: Sock)

  datatype Step =
    | Hold                                     // an API call begins
    | Rele                                     // and ends
    | AddEp | RmEp(eid: nat)                   // grid_bind or grid_connect, grid_shutdown, in such a call
    | EpStopped(eid: nat)                      // an endpoint asked to stop has done so
    | PipeEvent                                // a pipe of an endpoint can be read or written
    | Term                                     // grid_term
    | Close                                    // grid_close, up to waiting
    | ProtoStopped                             // the protocol part has stopped
    | Finish                                   // grid_close, after waiting

  function Without(l: seq<nat>, e: nat): seq<nat> {
    if l == [] then [] else if l[0] == e then l[1..] else [l[0]] + Without(l[1..], e)
  }

  predicate CanStep(s: Sock, step: Step) {
    !s.freed &&
    match step
    case Rele => s.users > 0
    case AddEp => s.users > 0
    case RmEp(e) => s.users > 0
    case EpStopped(e) => e in s.sdeps
    case PipeEvent => s.eps + s.sdeps != []
    case ProtoStopped => s.phase == Stopping && s.protoStops == 1
    case Finish => s.termPosts > 0 && s.relePosts > 0
    case _ => true
  }

  datatype Code = Granted | ETERM | EBADF

  // grid_global_hold_socket_locked and grid_sock_hold.
  function HoldCode(s: Sock): Code {
    if s.term then ETERM else if s.phase == Active then Granted else EBADF
  }

  // grid_sock_rele.
  function Released(s: Sock): Sock {
    s.(holds := s.holds - 1, relePosts := s.relePosts + if s.holds == 1 then 1 else 0)
  }

  // sock.c:939-957, finish1.
  function Finish1(s: Sock): Sock { s.(phase := Fini, termPosts := s.termPosts + 1) }

  // sock.c:920-933, finish2.
  function Finish2(s: Sock): Outcome {
    if s.sdeps != [] then Ok(s)
    else if s.eps != [] then Crash
    else if !s.hasStop then Ok(Finish1(s))
    else Ok(s.(phase := Stopping, protoStops := s.protoStops + 1))
  }

  function EpGone(s: Sock, e: nat): Sock { s.(sdeps := Without(s.sdeps, e), gone := s.gone + [e]) }

  function Apply(s: Sock, step: Step): Outcome {
    match step
    case Hold => Ok(if HoldCode(s) == Granted then s.(holds := s.holds + 1, users := s.users + 1) else s)
    case Rele => Ok(Released(s).(users := if s.users > 0 then s.users - 1 else 0))
    case AddEp => Ok(s.(eps := s.eps + [s.eid], eid := s.eid + 1))
    case RmEp(e) => Ok(if e in s.eps then s.(eps := Without(s.eps, e), sdeps := s.sdeps + [e]) else s)
    case EpStopped(e) =>
      if s.phase == Active then Ok(EpGone(s, e))
      else if s.phase == StoppingEps then Finish2(EpGone(s, e))
      else Crash
    case PipeEvent => if s.phase in {Active, StoppingEps} then Ok(s) else Crash
    case Term =>
      if s.phase == Active then Ok(s.(phase := Zombie, term := true))
      else if s.phase == StoppingEps then Ok(s.(term := true))
      else Crash
    case Close =>
      if HoldCode(s) != Granted then Ok(s)
      else
        var stopped := Finish2(s.(holds := s.holds + 1, phase := StoppingEps, sdeps := s.sdeps + s.eps, eps := []));
        if stopped == Crash then Crash else Ok(Released(Released(stopped.s)))
    case ProtoStopped => if s.phase == Stopping then Ok(Finish1(s)) else Crash
    case Finish => if s.eps != [] || s.sdeps != [] then Crash else Ok(s.(freed := true))
  }

  // ---------- The invariant ----------

  predicate Stopped(s: Sock) { s.phase !in {Active, Zombie} }

  function Count(l: seq<nat>, e: nat): nat {
    if l == [] then 0 else (if l[0] == e then 1 else 0) + Count(l[1..], e)
  }

  // In how many places an endpoint is.
  function Places(eps: seq<nat>, sdeps: seq<nat>, gone: seq<nat>, e: nat): nat {
    Count(eps, e) + Count(sdeps, e) + Count(gone, e)
  }

  // Each endpoint was added once and is in one place.
  ghost predicate Accounted(eps: seq<nat>, sdeps: seq<nat>, gone: seq<nat>, eid: nat) {
    forall e: nat :: Places(eps, sdeps, gone, e) == if 0 < e < eid then 1 else 0
  }

  ghost predicate Inv(s: Sock) {
    && s.holds == s.users + (if Stopped(s) then 0 else 1)
    && s.relePosts == (if s.holds == 0 then 1 else 0)
    && s.termPosts == (if s.phase == Fini then 1 else 0)
    && s.protoStops == (if s.phase == Stopping || (s.phase == Fini && s.hasStop) then 1 else 0)
    && (s.phase == Stopping ==> s.hasStop)
    && (s.phase == Zombie ==> s.term) && (s.phase == Active ==> !s.term)
    && (s.phase == StoppingEps ==> s.sdeps != [])
    && (s.freed ==> s.phase == Fini && s.users == 0 && s.eps == [] && s.sdeps == [])
    && s.eid > 0
    && Accounted(s.eps, s.sdeps, s.gone, s.eid)
  }

  // What the assertions and the unexpected events of the source come to.
  predicate Fatal(s: Sock, step: Step) {
    match step
    case EpStopped(e) =>
      s.phase in {Zombie, Stopping, Fini} || (s.phase == StoppingEps && s.sdeps == [e] && s.eps != [])
    case PipeEvent => s.phase in {Zombie, Stopping, Fini}
    case Term => s.phase in {Zombie, Stopping, Fini}
    case Finish => s.eps != [] || s.sdeps != []
    case _ => false
  }

  lemma {:induction false} CountAppend(a: seq<nat>, b: seq<nat>, e: nat)
    ensures Count(a + b, e) == Count(a, e) + Count(b, e)
  {
    if a == [] {
      assert a + b == b;
    } else {
      assert (a + b)[1..] == a[1..] + b;
      CountAppend(a[1..], b, e);
    }
  }

  lemma {:induction false} CountIn(l: seq<nat>, e: nat)
    ensures e in l <==> Count(l, e) > 0
  {
    if l != [] { CountIn(l[1..], e); }
  }

  lemma {:induction false} CountWithout(l: seq<nat>, x: nat, e: nat)
    ensures Count(Without(l, x), e) == if e == x && Count(l, e) > 0 then Count(l, e) - 1 else Count(l, e)
  {
    if l != [] && l[0] != x {
      CountWithout(l[1..], x, e);
      assert ([l[0]] + Without(l[1..], x))[1..] == Without(l[1..], x);
    }
  }

  lemma InitInv(hasStop: bool)
    ensures Inv(Init(hasStop))
  {
  }

  // ---------- Every step ----------

  lemma AddAccounted(s: Sock)
    requires Inv(s)
    ensures Accounted(s.eps + [s.eid], s.sdeps, s.gone, s.eid + 1)
  {
    forall e: nat ensures Places(s.eps + [s.eid], s.sdeps, s.gone, e) == if 0 < e < s.eid + 1 then 1 else 0 {
      CountAppend(s.eps, [s.eid], e);
      assert Places(s.eps, s.sdeps, s.gone, e) == if 0 < e < s.eid then 1 else 0;
    }
  }

  lemma RmAccounted(s: Sock, x: nat)
    requires Inv(s) && x in s.eps
    ensures Accounted(Without(s.eps, x), s.sdeps + [x], s.gone, s.eid)
  {
    CountIn(s.eps, x);
    forall e: nat ensures Places(Without(s.eps, x), s.sdeps + [x], s.gone, e) == Places(s.eps, s.sdeps, s.gone, e) {
      CountWithout(s.eps, x, e);
      CountAppend(s.sdeps, [x], e);
    }
  }

  lemma GoneAccounted(s: Sock, x: nat)
    requires Inv(s) && x in s.sdeps
    ensures Accounted(s.eps, Without(s.sdeps, x), s.gone + [x], s.eid)
    ensures Without(s.sdeps, x) == [] <==> s.sdeps == [x]
  {
    CountIn(s.sdeps, x);
    forall e: nat ensures Places(s.eps, Without(s.sdeps, x), s.gone + [x], e) == Places(s.eps, s.sdeps, s.gone, e) {
      CountWithout(s.sdeps, x, e);
      CountAppend(s.gone, [x], e);
    }
  }

  lemma CloseAccounted(s: Sock)
    requires Inv(s)
    ensures Accounted([], s.sdeps + s.eps, s.gone, s.eid)
  {
    forall e: nat ensures Places([], s.sdeps + s.eps, s.gone, e) == Places(s.eps, s.sdeps, s.gone, e) {
      CountAppend(s.sdeps, s.eps, e);
    }
  }

  /** Every step crashes exactly when it is a fatal one, and otherwise keeps the invariant. */
  lemma StepInv(s: Sock, step: Step)
    requires Inv(s) && CanStep(s, step)
    ensures Apply(s, step) == Crash <==> Fatal(s, step)
    ensures Apply(s, step) != Crash ==> Inv(Apply(s, step).s)
  {
    hide Count, Without, Accounted;
    match step
    case AddEp => AddAccounted(s);
    case RmEp(e) => if e in s.eps { RmAccounted(s, e); }
    case EpStopped(e) => GoneAccounted(s, e);
    case Close => CloseAccounted(s);
    case _ =>
  }

  // ---------- Every run ----------

  // A run that CanStep allows; None when it crashes.
  ghost predicate CanRun(s: Sock, steps: seq<Step>)
    decreases |steps|
  {
    steps == [] || (CanStep(s, steps[0])
      && (Apply(s, steps[0]) == Crash || CanRun(Apply(s, steps[0]).s, steps[1..])))
  }

  function Run(s: Sock, steps: seq<Step>): Outcome
    decreases |steps|
  {
    if steps == [] then Ok(s)
    else match Apply(s, steps[0])
      case Crash => Crash
      case Ok(t) => Run(t, steps[1..])
  }

  lemma {:induction false} RunInv(s: Sock, steps: seq<Step>)
    requires Inv(s) && CanRun(s, steps)
    ensures Run(s, steps) != Crash ==> Inv(Run(s, steps).s)
    decreases |steps|
  {
    hide Inv, Apply, CanStep;
    if steps != [] {
      StepInv(s, steps[0]);
      if Apply(s, steps[0]) != Crash { RunInv(Apply(s, steps[0]).s, steps[1..]); }
    }
  }

  // No grid_term, and no endpoint added to a socket that is being closed.
  predicate Orderly(s: Sock, step: Step) { step != Term && (step == AddEp ==> s.phase == Active) }

  ghost predicate OrderlyRun(s: Sock, steps: seq<Step>)
    decreases |steps|
  {
    steps == [] || (Orderly(s, steps[0])
      && (Apply(s, steps[0]) == Crash || OrderlyRun(Apply(s, steps[0]).s, steps[1..])))
  }

  // Once the socket is being closed, no endpoint is active; once its protocol part is, none
  // is left.
  predicate Tidy(s: Sock) {
    && s.phase != Zombie
    && (Stopped(s) ==> s.eps == [])
    && (s.phase in {Stopping, Fini} ==> s.sdeps == [])
  }

  lemma OrderlyStep(s: Sock, step: Step)
    requires Inv(s) && Tidy(s) && CanStep(s, step) && Orderly(s, step)
    ensures !Fatal(s, step) && Apply(s, step) != Crash && Tidy(Apply(s, step).s)
  {
    StepInv(s, step);
  }

  /** Without grid_term, and as long as no call adds an endpoint to a socket that is being
      closed, no interleaving crashes. */
  lemma {:induction false} OrderlyNeverCrashes(s: Sock, steps: seq<Step>)
    requires Inv(s) && Tidy(s) && CanRun(s, steps) && OrderlyRun(s, steps)
    ensures Run(s, steps) != Crash && Tidy(Run(s, steps).s)
    decreases |steps|
  {
    hide Inv, Apply, CanStep, Orderly, Tidy;
    if steps != [] {
      OrderlyStep(s, steps[0]);
      StepInv(s, steps[0]);
      OrderlyNeverCrashes(Apply(s, steps[0]).s, steps[1..]);
    }
  }

  /** What the counts of the semaphores mean in every run: at most one post each; the release
      one only when no call holds the socket; the socket is freed only after both. */
  lemma SemaphoresMeaning(hasStop: bool, steps: seq<Step>)
    requires CanRun(Init(hasStop), steps)
    ensures match Run(Init(hasStop), steps)
      case Crash => true
      case Ok(s) =>
        && s.relePosts <= 1 && s.termPosts <= 1 && s.protoStops <= 1
        && (s.relePosts == 1 ==> s.users == 0 && Stopped(s))
        && (s.termPosts == 1 ==> s.phase == Fini)
        && (s.freed ==> s.users == 0 && s.phase == Fini && s.relePosts == 1 && s.termPosts == 1)
  {
    InitInv(hasStop);
    RunInv(Init(hasStop), steps);
  }

  /** No hold is granted once the socket is being closed or has been terminated. */
  lemma {:induction false} NoHoldAfter(s: Sock, steps: seq<Step>)
    requires Inv(s) && s.phase != Active && CanRun(s, steps)
    ensures match Run(s, steps)
      case Crash => true
      case Ok(t) => t.phase != Active && HoldCode(t) != Granted && t.users <= s.users && t.holds <= s.holds
    decreases |steps|
  {
    hide Inv, CanStep;
    if steps != [] {
      StepInv(s, steps[0]);
      if Apply(s, steps[0]) != Crash { NoHoldAfter(Apply(s, steps[0]).s, steps[1..]); }
    }
  }

  /** The documentation lets grid_close work after grid_term (man/grid_term.txt:24-26), but
      a socket that grid_term finds open can never be closed. */
  lemma {:induction false} ZombieStays(s: Sock, steps: seq<Step>)
    requires Inv(s) && s.phase == Zombie && CanRun(s, steps)
    ensures match Run(s, steps)
      case Crash => true
      case Ok(t) => t.phase == Zombie && !t.freed && HoldCode(t) == ETERM
    decreases |steps|
  {
    hide Inv;
    SemaphoresOf(s);
    if steps != [] {
      StepInv(s, steps[0]);
      if Apply(s, steps[0]) != Crash { ZombieStays(Apply(s, steps[0]).s, steps[1..]); }
    }
  }

  lemma SemaphoresOf(s: Sock)
    requires Inv(s) && s.phase == Zombie
    ensures s.termPosts == 0 && !s.freed && s.term
  {
  }

  // ---------- Closing comes to an end ----------

  function Rank(s: Sock): nat {
    |s.sdeps| + s.users + (match s.phase case StoppingEps => 2 case Stopping => 1 case _ => 0)
    + (if s.freed then 0 else 1)
  }

  lemma {:induction false} WithoutShorter(l: seq<nat>, e: nat)
    requires e in l
    ensures |Without(l, e)| == |l| - 1
  {
    if l[0] != e { WithoutShorter(l[1..], e); }
  }

  // No step of a socket being closed takes it further away from the end.
  lemma RankFalls(s: Sock, step: Step)
    requires Inv(s) && Tidy(s) && Stopped(s) && CanStep(s, step) && Orderly(s, step)
    ensures Apply(s, step) != Crash && Rank(Apply(s, step).s) <= Rank(s)
    ensures step.Rele? || step.EpStopped? || step.ProtoStopped? || (step.Finish? && !s.freed) ==>
      Rank(Apply(s, step).s) < Rank(s)
  {
    hide Inv, Without;
    OrderlyStep(s, step);
    match step
    case EpStopped(e) => WithoutShorter(s.sdeps, e);
    case _ =>
  }

  /** A socket being closed is never stuck: until it is freed, an endpoint, a call in
      progress, its protocol part or grid_close itself can go on, and each brings it nearer;
      whatever else happens does not bring it further away. */
  lemma ClosingProgress(s: Sock) returns (step: Step)
    requires Inv(s) && Tidy(s) && Stopped(s) && !s.freed
    ensures CanStep(s, step) && Orderly(s, step) && Apply(s, step) != Crash
    ensures Rank(Apply(s, step).s) < Rank(s)
    ensures forall other :: CanStep(s, other) && Orderly(s, other) ==>
      Apply(s, other) != Crash && Rank(Apply(s, other).s) <= Rank(s)
  {
    step :=
      if s.phase == StoppingEps then EpStopped(s.sdeps[0])
      else if s.phase == Stopping then ProtoStopped
      else if s.users > 0 then Rele
      else Finish;
    RankFalls(s, step);
    forall other | CanStep(s, other) && Orderly(s, other)
      ensures Apply(s, other) != Crash && Rank(Apply(s, other).s) <= Rank(s)
    {
      RankFalls(s, other);
    }
  }

  // ---------- Concrete departures ----------

  /** grid_term crashes a socket whose protocol part is being stopped (sock.c:937). */
  lemma TermWhileStoppingCrashes()
    ensures var steps := [Close, Term]; CanRun(Init(true), steps) && Run(Init(true), steps) == Crash
  {
    var s1 := Apply(Init(true), Close).s;
    assert s1.phase == Stopping;
    assert Run(s1, [Term]) == Crash && CanRun(s1, [Term]);
    assert [Close, Term][1..] == [Term];
  }

  // One step of a run that ends in a crash.
  lemma CrashesAfter(s: Sock, step: Step, t: Sock, rest: seq<Step>)
    requires CanStep(s, step) && Apply(s, step) == Ok(t)
    requires CanRun(t, rest) && Run(t, rest) == Crash
    ensures CanRun(s, [step] + rest) && Run(s, [step] + rest) == Crash
  {
    assert ([step] + rest)[1..] == rest;
  }

  // A socket with one endpoint, and a call in progress.
  const BOUND := Sock(Active, false, 2, 1, [1], [], [], 2, false, 0, 0, 0, false)

  lemma BoundCrashes(rest: seq<Step>)
    requires rest == [Close, AddEp, EpStopped(1)]
    ensures CanRun(BOUND, rest) && Run(BOUND, rest) == Crash
  {
    hide CanRun, Run;
    var s5 := BOUND.(phase := StoppingEps, holds := 1, sdeps := [1], eps := []);
    var s6 := s5.(eps := [2], eid := 3);
    assert [] + [1] == [1];
    assert Apply(BOUND, Close) == Ok(s5);
    assert Apply(s5, AddEp) == Ok(s6);
    LastCrashes(s6);
    CrashesAfter(s5, AddEp, s6, [EpStopped(1)]);
    CrashesAfter(BOUND, Close, s5, [AddEp] + [EpStopped(1)]);
    assert [Close] + ([AddEp] + [EpStopped(1)]) == rest;
  }

  lemma LastCrashes(s: Sock)
    requires s.phase == StoppingEps && s.sdeps == [1] && s.eps != [] && !s.freed
    ensures CanRun(s, [EpStopped(1)]) && Run(s, [EpStopped(1)]) == Crash
  {
    assert Without([1], 1) == [];
    assert Apply(s, EpStopped(1)) == Crash;
  }

  // A socket with one endpoint.
  const OPEN := Sock(Active, false, 1, 0, [1], [], [], 2, false, 0, 0, 0, false)

  // Binding it.
  lemma BindingCrashes(rest: seq<Step>)
    requires CanRun(OPEN, rest) && Run(OPEN, rest) == Crash
    ensures var steps := [Hold, AddEp, Rele] + rest; CanRun(Init(false), steps) && Run(Init(false), steps) == Crash
  {
    hide CanRun, Run;
    var s0 := Init(false);
    var s1 := s0.(holds := 2, users := 1);
    var s2 := s1.(eps := [1], eid := 2);
    CrashesAfter(s2, Rele, OPEN, rest);
    CrashesAfter(s1, AddEp, s2, [Rele] + rest);
    CrashesAfter(s0, Hold, s1, [AddEp] + ([Rele] + rest));
    assert [Hold] + ([AddEp] + ([Rele] + rest)) == [Hold, AddEp, Rele] + rest;
  }

  /** After grid_term the next event of a pipe crashes (sock.c:1046-1047). */
  lemma PipeEventAfterTermCrashes()
    ensures var steps := [Hold, AddEp, Rele] + [Term, PipeEvent];
      CanRun(Init(false), steps) && Run(Init(false), steps) == Crash
  {
    hide CanRun, Run;
    var zombie := OPEN.(phase := Zombie, term := true);
    PipeEventCrashes(zombie);
    CrashesAfter(OPEN, Term, zombie, [PipeEvent]);
    assert [Term] + [PipeEvent] == [Term, PipeEvent];
    BindingCrashes([Term, PipeEvent]);
  }

  lemma PipeEventCrashes(s: Sock)
    requires s.phase == Zombie && s.eps != [] && !s.freed
    ensures CanRun(s, [PipeEvent]) && Run(s, [PipeEvent]) == Crash
  {
    assert Apply(s, PipeEvent) == Crash;
  }

  /** A grid_bind that began before grid_close may add its endpoint after it
      (grid_sock_add_ep does not look at the state); then the assertion at sock.c:926 fails. */
  lemma LateEndpointCrashes()
    ensures var steps := [Hold, AddEp, Rele] + [Hold, Close, AddEp, EpStopped(1)];
      CanRun(Init(false), steps) && Run(Init(false), steps) == Crash
  {
    hide CanRun, Run;
    var rest: seq<Step> := [Close, AddEp, EpStopped(1)];
    BoundCrashes(rest);
    CrashesAfter(OPEN, Hold, BOUND, rest);
    assert [Hold] + rest == [Hold, Close, AddEp, EpStopped(1)];
    BindingCrashes([Hold, Close, AddEp, EpStopped(1)]);
  }
}

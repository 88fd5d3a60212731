/** What each step of a socket's life does to its endpoints, its calls and its phase. */
module SockEffects {
  import opened SockModel

  // A step that is granted a hold.
  predicate IsGranted(s: Sock) { s.phase == Active }

  // Where an endpoint is.
  datatype Place = Nowhere | InUse | ShuttingDown | Gone

  ghost function PlaceOf(s: Sock, e: nat): Place {
    if e in s.eps then InUse else if e in s.sdeps then ShuttingDown else if e in s.gone then Gone else Nowhere
  }

  // The three lists in one, for an invariant socket.
  lemma OnePlace(s: Sock, e: nat)
    requires Inv(s)
    ensures e in s.eps ==> e !in s.sdeps && e !in s.gone
    ensures e in s.sdeps ==> e !in s.gone
    ensures PlaceOf(s, e) == Nowhere <==> !(0 < e < s.eid)
  {
    CountIn(s.eps, e);
    CountIn(s.sdeps, e);
    CountIn(s.gone, e);
    assert Places(s.eps, s.sdeps, s.gone, e) == if 0 < e < s.eid then 1 else 0;
  }

  lemma InWithout(l: seq<nat>, x: nat, e: nat)
    ensures e != x ==> (e in Without(l, x) <==> e in l)
    ensures e in Without(l, x) ==> e in l
  {
    CountIn(l, e);
    CountIn(Without(l, x), e);
    CountWithout(l, x, e);
  }

  /** Where each endpoint is after a step: a new one is in use, under an id that was not given
      out before; grid_shutdown moves the one it names and closing all of them; the one that
      has stopped is deallocated; every other stays where it was. */
  lemma EndpointsAfter(s: Sock, step: Step, e: nat)
    requires Inv(s) && CanStep(s, step) && Apply(s, step).Ok?
    ensures var r := Apply(s, step).s; var now := PlaceOf(r, e); var was := PlaceOf(s, e);
      && (now == InUse <==>
            (was == InUse && step != RmEp(e) && !(step == Close && IsGranted(s)))
            || (step == AddEp && e == s.eid && was == Nowhere))
      && (now == ShuttingDown <==>
            (was == ShuttingDown && step != EpStopped(e))
            || (was == InUse && (step == RmEp(e) || (step == Close && IsGranted(s)))))
      && (now == Gone <==> was == Gone || (step == EpStopped(e) && was == ShuttingDown))
  {
    hide Places, Count, Without;
    StepInv(s, step);
    OnePlace(s, e);
    OnePlace(Apply(s, step).s, e);
    match step
    case RmEp(x) => InWithout(s.eps, x, e);
    case EpStopped(x) => InWithout(s.sdeps, x, e);
    case _ =>
  }

  // What is left to wait for once no endpoint is.
  function Waiting(s: Sock): Phase { if s.hasStop then Stopping else Fini }

  /** The phase after a step, the calls in progress and what is freed: a hold is granted to a
      call until the socket is closed or terminated; closing waits for the endpoints, if there
      are any, then for the protocol part, if it has something to stop. */
  lemma PhaseAfter(s: Sock, step: Step)
    requires Inv(s) && CanStep(s, step) && Apply(s, step).Ok?
    ensures var r := Apply(s, step).s;
      && r.hasStop == s.hasStop
      && r.users == s.users + (if step == Hold && IsGranted(s) then 1 else if step == Rele then -1 else 0)
      && (r.term <==> s.term || step == Term)
      && (r.freed <==> s.freed || step == Finish)
      && r.eid == s.eid + (if step == AddEp then 1 else 0)
      && match step
         case Term => r.phase == if s.phase == Active then Zombie else s.phase
         case Close =>
           r.phase == (if !IsGranted(s) then s.phase
                       else if s.eps == [] && s.sdeps == [] then Waiting(s) else StoppingEps)
         case EpStopped(e) =>
           r.phase == if s.phase == StoppingEps && s.sdeps == [e] then Waiting(s) else s.phase
         case ProtoStopped => r.phase == Fini
         case _ => r.phase == s.phase
  {
    hide Places, Count, Accounted;
    StepInv(s, step);
    if step.EpStopped? { LastWithout(s, step.eid); }
  }

  lemma LastWithout(s: Sock, e: nat)
    requires Inv(s) && e in s.sdeps
    ensures Without(s.sdeps, e) == [] <==> s.sdeps == [e]
  {
    GoneAccounted(s, e);
  }

  // The answer to a call that asks for a hold.
  lemma HoldAnswers(s: Sock)
    requires Inv(s)
    ensures HoldCode(s) == Granted <==> IsGranted(s)
    ensures HoldCode(s) == ETERM <==> s.term
  {
  }
}

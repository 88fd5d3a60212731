/** The socket object (src/core/sock.c), updated in place as SockModel says. */
module Sock {
  import opened SockModel
  import opened SockEffects

  class SockObject {
    var phase: Phase
    var holds: int
    var eps: seq<nat>                          // ids of the active endpoints
    var sdeps: seq<nat>                        // and of those shutting down
    var eid: nat
    const hasStop: bool                        // the protocol has a stop function
    var term: bool                             // GRID_CTX_FLAG_ZOMBIE of the library
    var protoStops: nat
    var termsem: nat
    var relesem: nat
    ghost var users: nat
    ghost var gone: seq<nat>
    ghost var freed: bool

    ghost function View(): SockModel.Sock
      reads this
    {
      SockModel.Sock(phase, term, holds, users, eps, sdeps, gone, eid, hasStop, protoStops, termsem, relesem, freed)
    }

    // grid_sock_init.
    constructor (hasStop: bool)
      ensures View() == Init(hasStop) && Inv(View())
    {
      this.hasStop := hasStop;
      phase, term, holds, eps, sdeps, eid := Active, false, 1, [], [], 1;
      protoStops, termsem, relesem := 0, 0, 0;
      users, gone, freed := 0, [], false;
      new;
      InitInv(hasStop);
    }

    // grid_sock_hold, for an API call.
    method Hold() returns (code: Code)
      requires Inv(View()) && !freed
      modifies this`holds, this`users
      ensures code == HoldCode(old(View()))
      ensures Ok(View()) == Apply(old(View()), Step.Hold) && Inv(View())
    {
      StepInv(View(), Step.Hold);
      if term { return ETERM; }
      if phase != Active { return EBADF; }
      holds := holds + 1;
      users := users + 1;
      return Granted;
    }

    // grid_sock_rele, as such; it is the callers that must hold the socket.
    method Drop()
      modifies this`holds, this`relesem
      ensures View() == Released(old(View()))
    {
      holds := holds - 1;
      if holds == 0 { relesem := relesem + 1; }
    }

    method Rele()
      requires Inv(View()) && !freed && users > 0
      modifies this
      ensures Ok(View()) == Apply(old(View()), Step.Rele) && Inv(View())
    {
      StepInv(View(), Step.Rele);
      Drop();
      users := users - 1;
    }

    /** grid_sock_add_ep; `rc` is what grid_ep_init answers, and a failure leaves the socket
        alone. */
    method AddEp(rc: int) returns (id: int)
      requires Inv(View()) && !freed && users > 0
      modifies this`eps, this`eid
      ensures Inv(View())
      ensures rc < 0 ==> id == rc && View() == old(View())
      ensures rc >= 0 ==>
        && Ok(View()) == Apply(old(View()), Step.AddEp)
        && id == old(eid) && old(eid) !in old(eps + sdeps + gone)
    {
      StepInv(View(), Step.AddEp);
      NewId(View());
      if rc < 0 { return rc; }
      id := eid;
      eps := eps + [eid];
      eid := eid + 1;
    }

    // An id that was not given out before.
    lemma NewId(s: SockModel.Sock)
      requires Inv(s)
      ensures s.eid !in s.eps + s.sdeps + s.gone
    {
      assert Places(s.eps, s.sdeps, s.gone, s.eid) == 0;
      CountIn(s.eps, s.eid);
      CountIn(s.sdeps, s.eid);
      CountIn(s.gone, s.eid);
    }

    /** grid_sock_rm_ep: EINVAL unless the endpoint is active. */
    method RmEp(id: nat) returns (found: bool)
      requires Inv(View()) && !freed && users > 0
      modifies this`eps, this`sdeps
      ensures Ok(View()) == Apply(old(View()), Step.RmEp(id)) && Inv(View())
      ensures found <==> id in old(eps)
      ensures found ==>
        && id in sdeps && id !in eps
        && forall e | e != id :: PlaceOf(View(), e) == PlaceOf(old(View()), e)
      ensures !found ==> View() == old(View())
    {
      hide Inv, Without;
      ghost var was := View();
      StepInv(was, Step.RmEp(id));
      var i;
      found, i := Search(eps, id);
      if found {
        eps := eps[..i] + eps[i + 1..];
        sdeps := sdeps + [id];
      }
      Moved(was, View(), id);
    }

    // An endpoint that is asked to stop.
    lemma Moved(s: SockModel.Sock, r: SockModel.Sock, id: nat)
      requires Inv(s) && CanStep(s, Step.RmEp(id)) && Apply(s, Step.RmEp(id)) == Ok(r)
      ensures id in s.eps ==> id in r.sdeps && id !in r.eps
      ensures forall e | e != id :: PlaceOf(r, e) == PlaceOf(s, e)
    {
      hide Inv, Apply;
      StepInv(s, Step.RmEp(id));
      EndpointsAfter(s, Step.RmEp(id), id);
      OnePlace(r, id);
      forall e | e != id ensures PlaceOf(r, e) == PlaceOf(s, e) {
        EndpointsAfter(s, Step.RmEp(id), e);
      }
    }

    // The search of grid_sock_rm_ep.
    static method Search(l: seq<nat>, id: nat) returns (found: bool, i: nat)
      ensures found <==> id in l
      ensures found ==> i < |l| && l[i] == id && l[..i] + l[i + 1..] == Without(l, id)
    {
      i := 0;
      while i < |l| && l[i] != id
        invariant i <= |l| && id !in l[..i]
        invariant Without(l, id) == l[..i] + Without(l[i..], id)
      {
        assert l[i..][1..] == l[i + 1..];
        i := i + 1;
      }
      found := i < |l|;
      if found { assert l[i..][1..] == l[i + 1..]; }
    }

    // Where the endpoints are all gone (finish2 and finish1 of grid_sock_shutdown).
    method StopProtocol()
      requires Finish2(View()) != Crash
      modifies this`phase, this`protoStops, this`termsem
      ensures Ok(View()) == Finish2(old(View()))
    {
      if sdeps != [] { return; }
      assert eps == [];
      phase := Stopping;
      if hasStop {
        protoStops := protoStops + 1;
      } else {
        Fini();
      }
    }

    method Fini()
      modifies this`phase, this`termsem
      ensures View() == Finish1(old(View()))
    {
      phase := Phase.Fini;
      termsem := termsem + 1;
    }

    /** GRID_EP_STOPPED, where it is not fatal. */
    method EpStopped(id: nat)
      requires Inv(View()) && !freed && id in sdeps && !Fatal(View(), Step.EpStopped(id))
      modifies this
      ensures Ok(View()) == Apply(old(View()), Step.EpStopped(id)) && Inv(View())
      ensures forall e :: PlaceOf(View(), e) == if e == id then Place.Gone else PlaceOf(old(View()), e)
    {
      ghost var was := View();
      StepInv(was, Step.EpStopped(id));
      sdeps := Without(sdeps, id);
      gone := gone + [id];
      if phase == StoppingEps { StopProtocol(); }
      Deallocated(was, View(), id);
    }

    lemma Deallocated(s: SockModel.Sock, r: SockModel.Sock, id: nat)
      requires Inv(s) && CanStep(s, Step.EpStopped(id)) && Apply(s, Step.EpStopped(id)) == Ok(r)
      ensures forall e :: PlaceOf(r, e) == if e == id then Place.Gone else PlaceOf(s, e)
    {
      hide Inv, Apply;
      OnePlace(s, id);
      forall e ensures PlaceOf(r, e) == if e == id then Place.Gone else PlaceOf(s, e) {
        EndpointsAfter(s, Step.EpStopped(id), e);
      }
    }

    // The part of grid_term about a socket, where it is not fatal.
    method Zombify()
      requires Inv(View()) && !freed && !Fatal(View(), Step.Term)
      modifies this`phase, this`term
      ensures Ok(View()) == Apply(old(View()), Step.Term) && Inv(View())
    {
      StepInv(View(), Step.Term);
      term := true;
      if phase == Active { phase := Zombie; }
    }

    /** grid_close up to waiting: grid_sock_stop, which moves the endpoints one by one, and
        both holds dropped. */
    method Close() returns (code: Code)
      requires Inv(View()) && !freed
      modifies this
      ensures code == HoldCode(old(View()))
      ensures Ok(View()) == Apply(old(View()), Step.Close) && Inv(View())
    {
      hide Inv, Finish2, Without;
      StepInv(View(), Step.Close);
      if term { return ETERM; }
      if phase != Active { return EBADF; }
      holds := holds + 1;
      MoveAll();
      phase := StoppingEps;
      StopProtocol();
      Drop();
      Drop();
      return Granted;
    }

    method MoveAll()
      modifies this`eps, this`sdeps
      ensures eps == [] && sdeps == old(sdeps) + old(eps)
    {
      while eps != []
        invariant sdeps + eps == old(sdeps) + old(eps)
        decreases |eps|
      {
        sdeps, eps := sdeps + [eps[0]], eps[1..];
      }
    }

    // grid_sock_stopped.
    method ProtoStopped()
      requires Inv(View()) && !freed && phase == Stopping
      modifies this`phase, this`termsem
      ensures Ok(View()) == Apply(old(View()), Step.ProtoStopped) && Inv(View())
    {
      StepInv(View(), Step.ProtoStopped);
      Fini();
    }
  }
}

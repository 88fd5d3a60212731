/** The table of sockets and the stack of unused descriptors (src/core/global.c). */
module Global {
  const MAX_SOCKETS: nat := 512

  datatype Error = EAFNOSUPPORT | EMFILE | EINVAL | Init(rc: int)

  datatype Created = Fd(fd: nat) | Failed(error: Error)

  class Global {
    var socks: array<bool>                     // whether there is a socket with the descriptor
    var unused: array<nat>
    var nsocks: nat
    ghost var inUse: set<nat>

    ghost predicate Valid()
      reads this, socks, unused
    {
      && socks.Length == unused.Length == MAX_SOCKETS && nsocks <= MAX_SOCKETS
      && nsocks == |inUse|
      && (forall s :: s in inUse <==> 0 <= s < MAX_SOCKETS && socks[s])
      && (forall s :: 0 <= s < MAX_SOCKETS && !socks[s] ==> s in unused[..MAX_SOCKETS - nsocks])
      && (forall i :: 0 <= i < MAX_SOCKETS - nsocks ==> unused[i] < MAX_SOCKETS && unused[i] !in inUse)
      && (forall i, j :: 0 <= i < j < MAX_SOCKETS - nsocks ==> unused[i] != unused[j])
    }

    // grid_global_init.
    constructor ()
      ensures Valid() && inUse == {} && fresh(socks) && fresh(unused)
    {
      socks := new bool[MAX_SOCKETS](_ => false);
      unused := new nat[MAX_SOCKETS](i requires 0 <= i < MAX_SOCKETS => MAX_SOCKETS - i - 1);
      nsocks, inUse := 0, {};
      new;
      forall s | 0 <= s < MAX_SOCKETS ensures s in unused[..MAX_SOCKETS] {
        assert unused[..MAX_SOCKETS][MAX_SOCKETS - s - 1] == s;
      }
    }

    /** grid_global_create_socket, with what it finds out: whether the domain is one of the two,
        whether there is a socket type for the protocol, and what grid_sock_init answers.  A
        descriptor that it returns is not in use; nothing changes when it fails, and it fails
        with EMFILE exactly when the domain is right and all descriptors are in use. */
    method Create(domainOk: bool, typeFound: bool, rc: int) returns (r: Created)
      requires Valid()
      modifies this`nsocks, this`inUse, socks
      ensures Valid()
      ensures r == Failed(EAFNOSUPPORT) <==> !domainOk
      ensures r == Failed(EMFILE) <==> domainOk && |old(inUse)| == MAX_SOCKETS
      ensures r == Failed(EINVAL) <==> domainOk && |old(inUse)| < MAX_SOCKETS && !typeFound
      ensures r == Failed(Init(rc)) <==> domainOk && |old(inUse)| < MAX_SOCKETS && typeFound && rc < 0
      ensures r.Failed? ==> inUse == old(inUse)
      ensures r.Fd? ==> r.fd < MAX_SOCKETS && r.fd !in old(inUse) && inUse == old(inUse) + {r.fd}
      ensures r.Failed? && r.error.Init? ==> r.error.rc == rc
    {
      if !domainOk { return Failed(EAFNOSUPPORT); }
      if nsocks >= MAX_SOCKETS { return Failed(EMFILE); }
      var s := unused[MAX_SOCKETS - nsocks - 1];
      if !typeFound { return Failed(EINVAL); }
      if rc < 0 { return Failed(Init(rc)); }
      socks[s] := true;
      nsocks := nsocks + 1;
      inUse := inUse + {s};
      return Fd(s);
    }

    /** The end of grid_close: the descriptor, and no other, can be handed out again. */
    method Remove(s: nat)
      requires Valid() && s in inUse
      modifies this`nsocks, this`inUse, socks, unused
      ensures Valid() && inUse == old(inUse) - {s}
    {
      socks[s] := false;
      unused[MAX_SOCKETS - nsocks] := s;
      nsocks := nsocks - 1;
      inUse := inUse - {s};
      assert unused[..MAX_SOCKETS - nsocks] == old(unused[..MAX_SOCKETS - nsocks]) + [s];
    }
  }
}

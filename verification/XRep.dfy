/** The raw REP socket (src/protocols/reqrep/xrep.c) and the REP socket on top of it
    (src/protocols/reqrep/rep.c), with their state updated in place. */
module XRep {
  import opened Bytes
  import opened Wire
  import Routing

  datatype Data = Data(key: word, out: bool)

  // The counter behind the keys after n additions, and the key of the pipe added next.
  function Counter(start: nat, n: nat): word { (start + n) % (2 * TOP) }

  function KeyOf(start: nat, n: nat): word { (start + n) % TOP }

  lemma NextKey(start: nat, n: nat)
    ensures WithoutTop(Counter(start, n)) == KeyOf(start, n)
    ensures Counter(start, n + 1) ==
      if Counter(start, n) == 2 * TOP - 1 then 0 else Counter(start, n) + 1
  {
    hide WithoutTop;
    LowerBits(start + n);
    OneMore(start + n);
  }

  lemma LowerBits(m: nat)
    ensures m % (2 * TOP) % TOP == m % TOP
  {
    var q, r := m / (2 * TOP), m % (2 * TOP);
    assert m == 2 * TOP * q + r;
    if r < TOP { Residue(m, 2 * q, r); } else { Residue(m, 2 * q + 1, r - TOP); }
  }

  lemma OneMore(m: nat)
    ensures (m + 1) % (2 * TOP) == if m % (2 * TOP) == 2 * TOP - 1 then 0 else m % (2 * TOP) + 1
  {
  }

  lemma Residue(m: nat, q: nat, r: nat)
    requires m == TOP * q + r && r < TOP
    ensures m % TOP == r
  {
  }

  // Every pipe has the key of the moment it was added.
  ghost predicate Dated(start: word, adds: nat, born: map<nat, nat>, data: map<nat, Data>) {
    && born.Keys == data.Keys
    && forall p :: p in data ==> born[p] < adds && data[p].key == KeyOf(start, born[p])
  }

  // The hash and the pipes' data agree.
  predicate OneToOne(outpipes: map<word, nat>, data: map<nat, Data>) {
    && (forall p :: p in data ==> data[p].key in outpipes && outpipes[data[p].key] == p)
    && (forall k :: k in outpipes ==> outpipes[k] in data && data[outpipes[k]].key == k)
  }

  // The messages of the other pipes, in their order.
  function Others(queue: seq<(nat, Delivery)>, pipe: nat): seq<(nat, Delivery)> {
    if queue == [] then []
    else (if queue[0].0 == pipe then [] else [queue[0]]) + Others(queue[1..], pipe)
  }

  lemma OthersStep(queue: seq<(nat, Delivery)>, i: nat, pipe: nat)
    requires i <= |queue|
    ensures i == 0 ==> queue[i..] == queue
    ensures i == |queue| ==> Others(queue[i..], pipe) == []
    ensures i < |queue| ==>
      Others(queue[i..], pipe) == (if queue[i].0 == pipe then [] else [queue[i]]) + Others(queue[i + 1..], pipe)
  {
    if i < |queue| { assert queue[i..][1..] == queue[i + 1..]; }
  }

  lemma {:induction false} OthersAre(queue: seq<(nat, Delivery)>, pipe: nat)
    ensures forall q :: q in Others(queue, pipe) <==> q in queue && q.0 != pipe
  {
    if queue != [] {
      OthersAre(queue[1..], pipe);
      assert queue == [queue[0]] + queue[1..];
    }
  }

  lemma AddDated(start: word, adds: nat, born: map<nat, nat>, data: map<nat, Data>, pipe: nat, d: Data)
    requires Dated(start, adds, born, data) && pipe !in data && d.key == KeyOf(start, adds)
    ensures Dated(start, adds + 1, born[pipe := adds], data[pipe := d])
  {
    hide KeyOf;
  }

  lemma AddOneToOne(outpipes: map<word, nat>, data: map<nat, Data>, pipe: nat, d: Data)
    requires OneToOne(outpipes, data) && pipe !in data && d.key !in outpipes
    ensures OneToOne(outpipes[d.key := pipe], data[pipe := d])
  {
  }

  lemma RmDated(start: word, adds: nat, born: map<nat, nat>, data: map<nat, Data>, pipe: nat)
    requires Dated(start, adds, born, data)
    ensures Dated(start, adds, born - {pipe}, data - {pipe})
  {
    hide KeyOf;
  }

  lemma RmOneToOne(outpipes: map<word, nat>, data: map<nat, Data>, pipe: nat)
    requires OneToOne(outpipes, data) && pipe in data
    ensures OneToOne(outpipes - {data[pipe].key}, data - {pipe})
  {
  }

  class XRep {
    var nextKey: word
    var outpipes: map<word, nat>               // the hash: key to pipe
    var data: map<nat, Data>                   // the data of each pipe
    var inpipes: seq<(nat, Delivery)>          // the fair queue, as the order it yields
    var wire: seq<(nat, Msg)>                  // what was given to grid_pipe_send
    ghost var start: word                      // the random first key
    ghost var adds: nat                        // how many pipes were added so far
    ghost var born: map<nat, nat>              // when each pipe was added

    ghost predicate Valid(): (r: bool)
      reads this
      ensures r ==> born.Keys == data.Keys
    {
      && nextKey == Counter(start, adds)
      && Dated(start, adds, born, data)
      && OneToOne(outpipes, data)
      && (forall q :: q in inpipes ==> q.0 in data && WellDelivered(q.1))
    }

    // What grid_xrep_send can look up.
    function Peers(): map<word, Routing.Peer>
      requires forall k :: k in outpipes ==> outpipes[k] in data
      reads this
    {
      map k | k in outpipes :: Routing.Peer(outpipes[k], data[outpipes[k]].out)
    }

    // No pipe is left from a multiple of 2^31 additions ago.
    ghost predicate KeyFree()
      requires born.Keys == data.Keys
      reads this
    {
      forall p :: p in data ==> (adds - born[p]) % TOP != 0
    }

    /** The assertion against a duplicate key (hash.c:98-101) holds at the next addition exactly
        when no pipe is left from a multiple of 2^31 additions ago. */
    lemma KeyFreeExact()
      requires Valid()
      ensures KeyFree() <==> WithoutTop(nextKey) !in outpipes
    {
      hide KeyOf, Counter, WithoutTop;
      NextKey(start, adds);
      forall p | p in data ensures (adds - born[p]) % TOP == 0 <==> data[p].key == WithoutTop(nextKey) {
        SameKeyAgain(start, adds, born[p]);
      }
    }

    /** A socket's pipes as stages of a chain: the reply finds the pipe that the request came
        by exactly when it is writable. */
    lemma AsStage(pipe: nat, parsesIn: bool, parsesBack: bool, junk: seq<byte>, extra: seq<byte>)
      requires Valid() && pipe in data
      ensures data[pipe].key < TOP
      ensures Routing.Ready(Routing.Stage(data[pipe].key, pipe, parsesIn, parsesBack, Peers(), junk, extra))
        <==> data[pipe].out
    {
    }

    // grid_xrep_init.
    constructor (random: word)
      ensures Valid() && nextKey == random && data == map[] && inpipes == [] && wire == []
      ensures start == random && adds == 0 && born == map[]
    {
      nextKey, outpipes, data, inpipes, wire := random, map[], map[], [], [];
      start, adds, born := random, 0, map[];
    }

    // grid_xrep_add.
    method Add(pipe: nat)
      requires Valid() && pipe !in data && KeyFree()
      modifies this
      ensures Valid() && inpipes == old(inpipes) && wire == old(wire)
      ensures data == old(data)[pipe := Data(WithoutTop(old(nextKey)), false)]
      ensures adds == old(adds) + 1 && born == old(born)[pipe := old(adds)]
      ensures start == old(start)
    {
      hide Counter, KeyOf, WithoutTop, KeyFree, Dated, OneToOne;
      KeyFreeExact();
      NextKey(start, adds);
      var key := WithoutTop(nextKey);
      AddDated(start, adds, born, data, pipe, Data(key, false));
      AddOneToOne(outpipes, data, pipe, Data(key, false));
      data := data[pipe := Data(key, false)];
      outpipes := outpipes[key := pipe];
      nextKey := if nextKey == 2 * TOP - 1 then 0 else nextKey + 1;
      born := born[pipe := adds];
      adds := adds + 1;
    }

    // grid_xrep_rm; the fair queue yields no more of the pipe's messages.
    method Rm(pipe: nat)
      requires Valid() && pipe in data
      modifies this
      ensures Valid() && wire == old(wire)
      ensures data == old(data) - {pipe} && born == old(born) - {pipe}
      ensures adds == old(adds) && start == old(start) && nextKey == old(nextKey)
      ensures inpipes == Others(old(inpipes), pipe)
    {
      hide Counter, KeyOf, Dated, OneToOne;
      RmDated(start, adds, born, data, pipe);
      RmOneToOne(outpipes, data, pipe);
      OthersAre(inpipes, pipe);
      var kept := KeepOthers(inpipes, pipe);
      outpipes := outpipes - {data[pipe].key};
      data := data - {pipe};
      born := born - {pipe};
      inpipes := kept;
    }

    static method KeepOthers(queue: seq<(nat, Delivery)>, pipe: nat) returns (kept: seq<(nat, Delivery)>)
      ensures kept == Others(queue, pipe)
    {
      hide Others;
      kept := [];
      OthersStep(queue, 0, pipe);
      for i := 0 to |queue|
        invariant Others(queue, pipe) == kept + Others(queue[i..], pipe)
      {
        OthersStep(queue, i, pipe);
        if queue[i].0 != pipe { kept := kept + [queue[i]]; }
      }
      OthersStep(queue, |queue|, pipe);
    }

    // grid_xrep_out.
    method Out(pipe: nat)
      requires Valid() && pipe in data
      modifies this`data
      ensures Valid() && data == old(data)[pipe := old(data)[pipe].(out := true)]
    {
      data := data[pipe := data[pipe].(out := true)];
    }

    /** grid_xrep_recv: EAGAIN when there is no message, or when the message is malformed
        and was dropped. */
    method Recv() returns (msg: Option<Msg>)
      requires Valid()
      modifies this`inpipes
      ensures Valid()
      ensures old(inpipes) == [] ==> msg == None && inpipes == []
      ensures old(inpipes) != [] ==>
        && inpipes == old(inpipes)[1..]
        && msg == Routing.Receive(data[old(inpipes)[0].0].key, old(inpipes)[0].1)
        && (msg == None <==> !old(inpipes)[0].1.parsed && Routing.Bottomless(old(inpipes)[0].1.msg.body))
    {
      hide PutL, GetL, Counter, KeyOf, Dated, OneToOne, Routing.Scan, Routing.Bottomless;
      if inpipes != [] { Routing.ReceiveExact(data[inpipes[0].0].key, inpipes[0].1); }
      if inpipes == [] { return None; }
      var pipe, d := inpipes[0].0, inpipes[0].1;
      inpipes := inpipes[1..];
      var sphdr, body := d.msg.hdr, d.msg.body;
      if !d.parsed {
        var i :- Bottom(body);
        sphdr, body := body[..4 * i], body[4 * i..];
      }
      return Some(Msg(PutL(data[pipe].key) + sphdr, body));
    }

    // The search for the bottom of the stack (xrep.c:210-228).
    static method Bottom(body: seq<byte>) returns (n: Option<nat>)
      ensures n == Routing.Scan(body, 0)
    {
      hide GetL;
      var i := 0;
      while true
        invariant 0 <= 4 * i <= |body|
        invariant Routing.Scan(body, 0) == Routing.Scan(body, i)
        decreases |body| - 4 * i
      {
        if 4 * (i + 1) > |body| { return None; }
        if GetL(body[4 * i..]) >= TOP { break; }
        i := i + 1;
      }
      return Some(i + 1);
    }

    /** grid_xrep_send; `release` is whether the pipe asks not to be written to for now. */
    method Send(msg: Msg, release: bool)
      requires Valid()
      modifies this`wire, this`data
      ensures Valid()
      ensures match Routing.Send(old(Peers()), msg)
        case None => wire == old(wire) && data == old(data)
        case Some((pipe, m)) =>
          && wire == old(wire) + [(pipe, m)]
          && data == (if release then old(data)[pipe := old(data)[pipe].(out := false)] else old(data))
    {
      if |msg.hdr| < 4 { return; }
      var key := GetL(msg.hdr);
      if key !in outpipes { return; }
      var pipe := outpipes[key];
      if !data[pipe].out { return; }
      wire := wire + [(pipe, Msg(msg.hdr[4..], msg.body))];
      if release { data := data[pipe := data[pipe].(out := false)]; }
    }
  }

  lemma SameKeyAgain(start: nat, m: nat, n: nat)
    ensures (m - n) % TOP == 0 <==> KeyOf(start, n) == KeyOf(start, m)
  {
    Congruent(start + m, start + n);
  }

  lemma Congruent(a: int, b: int)
    ensures (a - b) % TOP == 0 <==> a % TOP == b % TOP
  {
  }

  lemma SameResidue(start: nat, a: nat, b: nat)
    requires KeyOf(start, a) == KeyOf(start, b)
    ensures (a - b) % TOP == 0
    ensures a < TOP && b < TOP ==> a == b
  {
    Congruent(start + a, start + b);
  }

  datatype Reply = Accepted | EFSM

  class Rep {
    const xrep: XRep
    var inprogress: bool
    var backtrace: seq<byte>
    ghost var asker: nat                       // when the pipe was added that the request came by

    ghost predicate Valid()
      reads this, xrep
    {
      && xrep.Valid()
      && (inprogress ==>
        && asker < xrep.adds && |backtrace| >= 4
        && GetL(backtrace) == KeyOf(xrep.start, asker))
    }

    // grid_rep_init.
    constructor (random: word)
      ensures Valid() && !inprogress && fresh(xrep)
    {
      xrep := new XRep(random);
      inprogress, backtrace := false, [];
    }

    /** grid_rep_recv: whatever comes of it, the request before is forgotten; the header of a
        new one is kept, so that the application sees none. */
    method Recv() returns (msg: Option<Msg>)
      requires Valid()
      modifies this, xrep`inpipes
      ensures Valid()
      ensures inprogress == msg.Some?
      ensures old(xrep.inpipes) == [] ==> msg == None && xrep.inpipes == []
      ensures old(xrep.inpipes) != [] ==>
        var q := old(xrep.inpipes)[0];
        && xrep.inpipes == old(xrep.inpipes)[1..]
        && match Routing.Receive(xrep.data[q.0].key, q.1)
           case None => msg == None
           case Some(m) =>
             msg == Some(Msg([], m.body)) && backtrace == m.hdr && asker == xrep.born[q.0]
    {
      if inprogress { backtrace, inprogress := [], false; }
      ghost var pending := xrep.inpipes;
      var got := xrep.Recv();
      if got == None { return None; }
      backtrace := got.value.hdr;
      inprogress := true;
      asker := xrep.born[pending[0].0];
      assert exists rest :: backtrace == PutL(xrep.data[pending[0].0].key) + rest;
      ghost var rest :| backtrace == PutL(xrep.data[pending[0].0].key) + rest;
      GetPut(xrep.data[pending[0].0].key, rest);
      return Some(Msg([], got.value.body));
    }

    // A pipe with the asker's key was added a multiple of 2^31 additions before or after.
    lemma SameKey(pipe: nat)
      requires xrep.Valid() && pipe in xrep.data && asker < xrep.adds
      requires xrep.data[pipe].key == KeyOf(xrep.start, asker)
      ensures (xrep.born[pipe] - asker) % TOP == 0
      ensures xrep.adds <= TOP ==> xrep.born[pipe] == asker
    {
      hide KeyOf, Counter;
      SameResidue(xrep.start, xrep.born[pipe], asker);
    }

    /** grid_rep_send: one reply a request.  It goes to a pipe whose key is that of the pipe
        the request came by, which is that pipe itself unless 2^31 pipes were added. */
    method Send(msg: Msg, release: bool) returns (r: Reply)
      requires Valid() && msg.hdr == []
      modifies this, xrep`wire, xrep`data
      ensures Valid() && !inprogress
      ensures r == if old(inprogress) then Accepted else EFSM
      ensures r == EFSM ==> xrep.wire == old(xrep.wire) && xrep.data == old(xrep.data)
      ensures r == Accepted ==>
        match Routing.Send(old(xrep.Peers()), Msg(old(backtrace), msg.body))
        case None => xrep.wire == old(xrep.wire) && xrep.data == old(xrep.data)
        case Some((pipe, m)) =>
          && xrep.wire == old(xrep.wire) + [(pipe, m)]
          && xrep.data == (if release then old(xrep.data)[pipe := old(xrep.data)[pipe].(out := false)]
                           else old(xrep.data))
          && pipe in xrep.born
          && (xrep.born[pipe] - asker) % TOP == 0
          && (xrep.adds <= TOP ==> xrep.born[pipe] == asker)
      ensures asker == old(asker)
    {
      hide GetL, PutL, KeyOf, Counter;
      if !inprogress { return EFSM; }
      var sphdr := backtrace;
      backtrace := [];
      inprogress := false;
      xrep.Send(Msg(sphdr, msg.body), release);
      ghost var sent := Routing.Send(old(xrep.Peers()), Msg(sphdr, msg.body));
      if sent.Some? { SameKey(sent.value.0); }
      return Accepted;
    }
  }

  /** An input on which a key clashes: one pipe stays while others come and go, until the
      counter has gone round. */
  method KeyClashes() returns (x: XRep)
    ensures fresh(x) && x.Valid() && !x.KeyFree()
  {
    hide Counter, KeyOf, Dated, OneToOne, WithoutTop;
    x := new XRep(0);
    x.Add(0);
    for i := 1 to TOP
      invariant fresh(x) && Alone(x, i)
    {
      ComeAndGo(x, i);
    }
    assert 0 in x.data && (x.adds - x.born[0]) % TOP == 0;
  }

  // The first pipe is the only one left.
  ghost predicate Alone(x: XRep, adds: nat)
    reads x
  {
    x.Valid() && x.adds == adds && x.data.Keys == {0} && x.born[0] == 0
  }

  method ComeAndGo(x: XRep, ghost adds: nat)
    requires Alone(x, adds) && 0 < adds < TOP
    modifies x
    ensures Alone(x, adds + 1)
  {
    hide Counter, KeyOf, Dated, OneToOne, WithoutTop;
    assert x.KeyFree();
    x.Add(1);
    x.Rm(1);
    assert x.data.Keys == {0};
  }
}

/** Backtrace routing: what a request collects on its way through raw sockets and devices
    (src/protocols/reqrep/xrep.c, src/devices/device.c) and how the reply retraces it. */
module Routing {
  import opened Bytes
  import opened Wire
  import Cmsg
  import XReq

  // ---------- The backtrace stack ----------

  function WordAt(b: seq<byte>, i: nat): word
    requires 4 * (i + 1) <= |b|
  {
    GetL(b[4 * i..])
  }

  // The words up to the bottom of the stack (xrep.c:210-228), counted from word i on.
  // None: there is no bottom.
  function Scan(b: seq<byte>, i: nat): (n: Option<nat>)
    ensures n.Some? ==> i < n.value && 4 * n.value <= |b|
    decreases |b| - 4 * i
  {
    if 4 * (i + 1) > |b| then None
    else if WordAt(b, i) >= TOP then Some(i + 1)
    else Scan(b, i + 1)
  }

  // Whole words, of which the last and no other has its top bit set.
  predicate IsStack(h: seq<byte>) {
    && |h| > 0 && |h| % 4 == 0
    && WordAt(h, |h| / 4 - 1) >= TOP
    && forall i :: 0 <= i < |h| / 4 - 1 ==> WordAt(h, i) < TOP
  }

  lemma WordPrefix(h: seq<byte>, b: seq<byte>, i: nat)
    requires 4 * (i + 1) <= |h|
    ensures WordAt(h + b, i) == WordAt(h, i)
  {
    assert (h + b)[4 * i..] == h[4 * i..] + b;
  }

  lemma {:induction false} ScanFinds(b: seq<byte>, i: nat, n: nat)
    requires i < n && 4 * n <= |b|
    requires WordAt(b, n - 1) >= TOP
    requires forall k :: i <= k < n - 1 ==> WordAt(b, k) < TOP
    ensures Scan(b, i) == Some(n)
    decreases n - i
  {
    hide WordAt;
    if i < n - 1 { ScanFinds(b, i + 1, n); }
  }

  lemma {:induction false} ScanFound(b: seq<byte>, i: nat)
    ensures match Scan(b, i)
      case Some(n) => WordAt(b, n - 1) >= TOP && forall k :: i <= k < n - 1 ==> WordAt(b, k) < TOP
      case None => forall k :: i <= k < |b| / 4 ==> WordAt(b, k) < TOP
    decreases |b| - 4 * i
  {
    hide WordAt;
    if 4 * (i + 1) <= |b| && WordAt(b, i) < TOP { ScanFound(b, i + 1); }
  }

  /** Splitting the wire bytes at the first word with its top bit set undoes the
      concatenation of header and body exactly when the header is a stack. */
  lemma SplitUndoes(h: seq<byte>, b: seq<byte>)
    ensures IsStack(h) <==> Scan(h + b, 0) == Some(|h| / 4) && |h| % 4 == 0
  {
    hide WordAt;
    forall i: nat | 4 * (i + 1) <= |h| ensures WordAt(h + b, i) == WordAt(h, i) {
      WordPrefix(h, b, i);
    }
    if IsStack(h) {
      ScanFinds(h + b, 0, |h| / 4);
    } else {
      ScanFound(h + b, 0);
    }
  }

  // ---------- One raw REP socket ----------

  // grid_xrep_recv from a pipe with the given key.  None is -EAGAIN for a request without
  // a bottom of the stack, which is dropped.
  function Receive(key: word, d: Delivery): Option<Msg> {
    if d.parsed then Some(Msg(PutL(key) + d.msg.hdr, d.msg.body))
    else match Scan(d.msg.body, 0)
      case None => None
      case Some(n) => Some(Msg(PutL(key) + d.msg.body[..4 * n], d.msg.body[4 * n..]))
  }

  // The bottom of the stack in what came off a link that does not parse: the first n words
  // are the header, of which only the last has its top bit set.
  predicate BottomAt(body: seq<byte>, n: nat) {
    && 0 < n && 4 * n <= |body| && WordAt(body, n - 1) >= TOP
    && forall k :: 0 <= k < n - 1 ==> WordAt(body, k) < TOP
  }

  // No word of it has.
  predicate Bottomless(body: seq<byte>) {
    forall k :: 0 <= k < |body| / 4 ==> WordAt(body, k) < TOP
  }

  /** A request without a bottom of the stack is dropped, and no other is; of any other the
      header is the key and the words up to the bottom, and the body the rest. */
  lemma ReceiveExact(key: word, d: Delivery)
    ensures Receive(key, d) == None <==> !d.parsed && Bottomless(d.msg.body)
    ensures forall n: nat :: !d.parsed && BottomAt(d.msg.body, n) ==>
      Receive(key, d) == Some(Msg(PutL(key) + d.msg.body[..4 * n], d.msg.body[4 * n..]))
    ensures d.parsed ==> Receive(key, d) == Some(Msg(PutL(key) + d.msg.hdr, d.msg.body))
  {
    hide WordAt;
    ScanFound(d.msg.body, 0);
    forall n: nat | BottomAt(d.msg.body, n) ensures Scan(d.msg.body, 0) == Some(n) {
      ScanFinds(d.msg.body, 0, n);
    }
  }

  // What a raw REP socket knows of a pipe: whether it can be written to.
  datatype Peer = Peer(pipe: nat, out: bool)

  // grid_xrep_send: the pipe that the reply goes to and what is sent.  None: it is dropped.
  function Send(peers: map<word, Peer>, m: Msg): Option<(nat, Msg)> {
    if |m.hdr| < 4 then None
    else
      var key := GetL(m.hdr);
      if key !in peers || !peers[key].out then None
      else Some((peers[key].pipe, Msg(m.hdr[4..], m.body)))
  }

  // A link, of a transport that parses messages or of one that does not.
  function Carry(parses: bool, m: Msg): Delivery {
    if parses then Delivery(true, m) else Unparsed(m)
  }

  /** A raw REP socket makes of what is on the wire its key and what was on the wire, and
      leaves the body alone, whichever link the request took. */
  lemma ReceivePushes(key: word, parses: bool, m: Msg)
    requires IsStack(m.hdr)
    ensures Receive(key, Carry(parses, m)) == Some(Msg(PutL(key) + m.hdr, m.body))
  {
    SplitUndoes(m.hdr, m.body);
    var b := m.hdr + m.body;
    assert b[..|m.hdr|] == m.hdr && b[|m.hdr|..] == m.body;
  }

  lemma PushKeepsStack(key: word, h: seq<byte>)
    requires key < TOP && IsStack(h)
    ensures IsStack(PutL(key) + h)
  {
    hide PutL, GetL;
    var p := PutL(key) + h;
    GetPut(key, h);
    assert WordAt(p, 0) == key by { assert p[0..] == p; }
    forall i: nat | 0 < i < |p| / 4 ensures WordAt(p, i) == WordAt(h, i - 1) {
      assert p[4 * i..] == h[4 * (i - 1)..];
    }
  }

  // ---------- A device ----------

  // The n bytes of a fresh chunk, about which nothing is known.
  function Chunk(junk: seq<byte>, n: nat): (c: seq<byte>)
    ensures |c| == n
  {
    if |junk| >= n then junk[..n] else junk + seq(n - |junk|, _ => 0)
  }

  predicate Portable(m: Msg, extra: seq<byte>) {
    4 * |m.hdr| + 4 * |extra| + 0x1000 < Cmsg.WRAP
  }

  // grid_device_mvmsg: the header goes through the control buffer that recvmsg allocates
  // and sendmsg searches; `extra` are the other properties of the message.
  function Move(junk: seq<byte>, extra: seq<byte>, m: Msg): Option<Msg>
    requires Portable(m, extra)
  {
    var c := Chunk(junk, Cmsg.Space(|m.hdr| + Cmsg.WORD) + |extra|);
    var h :- Cmsg.HeaderOf(Cmsg.Controlled(c, m.hdr, extra));
    Some(Msg(h, m.body))
  }

  lemma MoveKeeps(junk: seq<byte>, extra: seq<byte>, m: Msg)
    requires Portable(m, extra)
    ensures Move(junk, extra, m) == Some(m)
  {
    hide Cmsg.HeaderOf, Cmsg.Controlled;
    var c := Chunk(junk, Cmsg.Space(|m.hdr| + Cmsg.WORD) + |extra|);
    Cmsg.AlignBounds(|m.hdr| + Cmsg.WORD);
    Cmsg.ControlledCarries(c, m.hdr, extra);
  }

  // ---------- A chain ----------

  /** A raw REP socket on the way: that of a device, or of the REP socket at the far end.
      `parsesIn` is the link that requests come in by, `parsesBack` the same link for the
      replies, `from` and `key` the pipe of that link, and `peers` what the socket has
      registered by the time the reply comes. */
  datatype Stage = Stage(key: word, from: nat, parsesIn: bool, parsesBack: bool,
    peers: map<word, Peer>, junk: seq<byte>, extra: seq<byte>)

  // The request's way to the last stage.
  function Forward(stages: seq<Stage>, m: Msg): Option<Msg>
    decreases |stages|
  {
    if stages == [] then Some(m)
    else
      var s := stages[0];
      var r :- Receive(s.key, Carry(s.parsesIn, m));
      if |stages| == 1 then Some(r)
      else if !Portable(r, s.extra) then None
      else
        var moved :- Move(s.junk, s.extra, r);
        Forward(stages[1..], moved)
  }

  // The reply's way back from the last stage to the requester's XREQ socket.  None: it
  // was dropped, or went to a pipe that the request did not come from.
  function Back(stages: seq<Stage>, m: Msg): Option<Msg>
    decreases |stages|
  {
    if stages == [] then Some(m)
    else
      var n := |stages| - 1;
      var s := stages[n];
      var sent :- Send(s.peers, m);
      if sent.0 != s.from then None
      else
        var r :- XReq.Split(Carry(s.parsesBack, sent.1));
        if n == 0 then Some(r)
        else if !Portable(r, stages[n - 1].extra) then None
        else
          var moved :- Move(stages[n - 1].junk, stages[n - 1].extra, r);
          Back(stages[..n], moved)
  }

  // The keys collected, the last first.
  function Trace(stages: seq<Stage>): seq<byte> {
    if stages == [] then [] else Trace(stages[1..]) + PutL(stages[0].key)
  }

  predicate Fit(stages: seq<Stage>, limit: nat) {
    forall s :: s in stages ==> s.key < TOP && 4 * |s.extra| + 16 * |stages| + 4 * limit + 0x1000 < Cmsg.WRAP
  }

  /** The request arrives with the keys of all the pipes it came through in front of its
      header, the latest first, and with its body unchanged. */
  lemma {:induction false} ForwardCollects(stages: seq<Stage>, m: Msg)
    requires IsStack(m.hdr) && Fit(stages, |m.hdr|)
    ensures Forward(stages, m) == Some(Msg(Trace(stages) + m.hdr, m.body))
    decreases |stages|
  {
    hide IsStack, Move, Receive, PutL;
    if stages == [] {
      assert Trace(stages) + m.hdr == m.hdr;
    } else {
      var s := stages[0];
      var r := Msg(PutL(s.key) + m.hdr, m.body);
      ReceivePushes(s.key, s.parsesIn, m);
      PushKeepsStack(s.key, m.hdr);
      assert Trace(stages) + m.hdr == Trace(stages[1..]) + r.hdr;
      if |stages| > 1 {
        MoveKeeps(s.junk, s.extra, r);
        ForwardCollects(stages[1..], r);
      } else {
        assert Trace(stages[1..]) + r.hdr == r.hdr;
      }
    }
  }

  lemma {:induction false} TraceLast(stages: seq<Stage>)
    requires stages != []
    ensures var n := |stages| - 1; Trace(stages) == PutL(stages[n].key) + Trace(stages[..n])
  {
    hide PutL;
    var n := |stages| - 1;
    if n == 0 {
      assert stages[1..] == [] && stages[..0] == [];
    } else {
      TraceLast(stages[1..]);
      assert stages[1..][..n - 1] == stages[..n][1..];
    }
  }

  // The pipe that the request came by is still there and can be written to.
  predicate Ready(s: Stage) {
    s.key in s.peers && s.peers[s.key] == Peer(s.from, true)
  }

  predicate AllReady(stages: seq<Stage>) { forall s :: s in stages ==> Ready(s) }

  predicate NoneParses(stages: seq<Stage>) { forall s :: s in stages ==> !s.parsesBack }

  // On the way back, last stage first, no link that parses comes after one that does not.
  predicate ParsesFirst(stages: seq<Stage>) {
    forall i, j :: 0 <= i < j < |stages| && stages[i].parsesBack ==> stages[j].parsesBack
  }

  // Bytes as they look behind a link that does not parse: four of them are the header.
  function Cut(w: seq<byte>): Msg
    requires |w| >= 4
  {
    Msg(w[..4], w[4..])
  }

  lemma SendPops(s: Stage, rest: seq<byte>, body: seq<byte>)
    ensures var m := Msg(PutL(s.key) + rest, body);
      if Ready(s) then Send(s.peers, m) == Some((s.from, Msg(rest, body)))
      else Send(s.peers, m).None? || Send(s.peers, m).value.0 != s.from
  {
    hide PutL, GetL;
    GetPut(s.key, rest);
    assert (PutL(s.key) + rest)[4..] == rest;
  }

  // Behind a link that does not parse, every link must leave the message unparsed.
  lemma {:induction false} BackCut(stages: seq<Stage>, h: seq<byte>, body: seq<byte>)
    requires |h| == 4 && Fit(stages, |Trace(stages)| + |h|)
    ensures Back(stages, Cut(Trace(stages) + h + body)) == Some(Msg(h, body))
      <==> AllReady(stages) && NoneParses(stages)
    decreases |stages|
  {
    hide PutL, GetL, Move, Send, Ready;
    var w := Trace(stages) + h + body;
    if stages == [] {
      assert Cut(w) == Msg(h, body);
    } else {
      var n := |stages| - 1;
      var s := stages[n];
      TraceLast(stages);
      var rest := Trace(stages[..n]) + h + body;
      assert w == PutL(s.key) + rest;
      assert Cut(w) == Msg(PutL(s.key) + [], rest);
      SendPops(s, [], rest);
      LastOf(stages);
      if Ready(s) {
        assert OnWire(Msg([], rest)) == rest;
        if s.parsesBack {
          if n > 0 {
            MoveKeeps(stages[n - 1].junk, stages[n - 1].extra, Msg([], rest));
            NothingToPop(stages[..n], rest);
          }
        } else {
          if n > 0 { MoveKeeps(stages[n - 1].junk, stages[n - 1].extra, Cut(rest)); }
          BackCut(stages[..n], h, body);
        }
      }
    }
  }

  lemma NothingToPop(stages: seq<Stage>, body: seq<byte>)
    requires stages != []
    ensures Back(stages, Msg([], body)).None?
  {
  }

  lemma LastOf(stages: seq<Stage>)
    requires stages != []
    ensures var n := |stages| - 1;
      && (AllReady(stages) <==> AllReady(stages[..n]) && Ready(stages[n]))
      && (NoneParses(stages) <==> NoneParses(stages[..n]) && !stages[n].parsesBack)
  {
    hide Ready;
    var n := |stages| - 1;
    assert stages == stages[..n] + [stages[n]];
  }

  lemma ParsesLast(stages: seq<Stage>)
    requires stages != []
    ensures var n := |stages| - 1;
      ParsesFirst(stages) <==>
        if stages[n].parsesBack then ParsesFirst(stages[..n]) else NoneParses(stages[..n])
  {
    var n := |stages| - 1;
    var front := stages[..n];
    if !stages[n].parsesBack && ParsesFirst(stages) {
      forall s | s in front ensures !s.parsesBack {
        var i :| 0 <= i < n && front[i] == s;
        assert stages[i] == s;
      }
    }
    if !stages[n].parsesBack && NoneParses(front) {
      forall i | 0 <= i < n ensures !stages[i].parsesBack { assert front[i] in front; }
    }
  }

  /** A reply sent with the collected keys in front of the request's header comes back with
      that header and its own body exactly when every pipe on the way is still there and
      writable and no link that parses comes after one that does not. */
  lemma {:induction false} BackRetraces(stages: seq<Stage>, h: seq<byte>, body: seq<byte>)
    requires |h| == 4 && Fit(stages, |Trace(stages)| + |h|)
    ensures Back(stages, Msg(Trace(stages) + h, body)) == Some(Msg(h, body))
      <==> AllReady(stages) && ParsesFirst(stages)
    decreases |stages|
  {
    hide PutL, GetL, Move, Send, Ready, ParsesFirst;
    if stages == [] {
      assert Trace(stages) + h == h;
      assert ParsesFirst(stages) by { NoStages(stages); }
    } else {
      var n := |stages| - 1;
      var s := stages[n];
      TraceLast(stages);
      var rest := Trace(stages[..n]) + h;
      assert Trace(stages) + h == PutL(s.key) + rest;
      SendPops(s, rest, body);
      LastOf(stages);
      ParsesLast(stages);
      if Ready(s) {
        if s.parsesBack {
          if n > 0 { MoveKeeps(stages[n - 1].junk, stages[n - 1].extra, Msg(rest, body)); }
          BackRetraces(stages[..n], h, body);
        } else {
          if n > 0 { MoveKeeps(stages[n - 1].junk, stages[n - 1].extra, Cut(rest + body)); }
          BackCut(stages[..n], h, body);
        }
      }
    }
  }

  lemma NoStages(stages: seq<Stage>)
    requires stages == []
    ensures ParsesFirst(stages)
  {
  }

  /** Two stages of which only the one next to the requester has a link that parses: all pipes
      are there, and still the reply does not come back. */
  lemma ParsingLinkBehind(h: seq<byte>, body: seq<byte>) returns (stages: seq<Stage>)
    requires |h| == 4
    ensures AllReady(stages) && |stages| == 2
    ensures Back(stages, Msg(Trace(stages) + h, body)) != Some(Msg(h, body))
  {
    var near := Stage(1, 1, true, true, map[1 := Peer(1, true)], [], []);
    var far := Stage(2, 2, false, false, map[2 := Peer(2, true)], [], []);
    stages := [near, far];
    assert Ready(near) && Ready(far);
    TraceLength(stages);
    assert stages[0].parsesBack && !stages[1].parsesBack;
    BackRetraces(stages, h, body);
  }

  // ---------- End to end ----------

  // grid_req_action_send: the header of a request.
  function RequestHeader(id: word): seq<byte> { PutL(WithTop(id)) }

  lemma IdIsStack(id: word)
    ensures IsStack(RequestHeader(id))
  {
    GetPut(WithTop(id), []);
    assert RequestHeader(id)[0..] == RequestHeader(id) + [];
  }

  /** Over any number of devices: the request reaches the far end with its body, and a reply
      sent with the header it arrived with retraces its pipes in reverse and reaches the
      requester with the request's id and the reply's body, exactly when those pipes are
      still there and no parsing link follows one that does not parse. */
  lemma EndToEnd(stages: seq<Stage>, id: word, request: seq<byte>, reply: seq<byte>)
    requires Fit(stages, 4 * |stages| + 4)
    ensures match Forward(stages, Msg(RequestHeader(id), request))
      case None => false
      case Some(got) =>
        && got == Msg(Trace(stages) + RequestHeader(id), request)
        && (Back(stages, Msg(got.hdr, reply)) == Some(Msg(RequestHeader(id), reply))
            <==> AllReady(stages) && ParsesFirst(stages))
  {
    hide IsStack, Ready, ParsesFirst, PutL, Forward, Back, WithTop, AllReady, Fit, Trace;
    var h := RequestHeader(id);
    IdIsStack(id);
    TraceLength(stages);
    assert |h| == 4;
    FitLess(stages, 4 * |stages| + 4, |h|);
    ForwardCollects(stages, Msg(h, request));
    BackRetraces(stages, h, reply);
  }

  lemma FitLess(stages: seq<Stage>, limit: nat, less: nat)
    requires Fit(stages, limit) && less <= limit
    ensures Fit(stages, less)
  {
  }

  lemma {:induction false} TraceLength(stages: seq<Stage>)
    ensures |Trace(stages)| == 4 * |stages|
  {
    if stages != [] { TraceLength(stages[1..]); }
  }

  /** As no transport of the library parses messages, the pipes alone decide. */
  lemma EndToEndUnparsed(stages: seq<Stage>, id: word, request: seq<byte>, reply: seq<byte>)
    requires Fit(stages, 4 * |stages| + 4) && NoneParses(stages)
    ensures var got := Forward(stages, Msg(RequestHeader(id), request));
      && got.Some?
      && (Back(stages, Msg(got.value.hdr, reply)) == Some(Msg(RequestHeader(id), reply))
          <==> AllReady(stages))
  {
    EndToEnd(stages, id, request, reply);
  }
}

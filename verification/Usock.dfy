/** The byte streams of a connected socket (src/aio/usock.c, state ACTIVE). */
module Usock {
  import opened Bytes

  const BATCH_SIZE: nat := 2048
  const MAX_IOVCNT: nat := 3

  datatype Event = Sent | Received | Error

  // What recvmsg has: some bytes, perhaps with a file descriptor, none for now, or a
  // connection that is closed or broken.
  datatype Reception = Ready(bytes: seq<byte>, fd: Option<int>) | Again | Gone

  type Kernel = k: Reception | k.Ready? ==> k.bytes != [] witness Again

  // File descriptors: whether the caller wants one, the one it got, and those closed.
  datatype Fds = Fds(wanted: bool, got: Option<int>, closed: seq<int>)

  function Min(a: nat, b: nat): nat { if a < b then a else b }

  // The bytes that recvmsg returns into a buffer of a size; the rest stays in the kernel.
  function Returned(k: Kernel, size: nat): seq<byte> {
    if k.Ready? then k.bytes[..Min(|k.bytes|, size)] else []
  }

  // ---------- Receiving ----------

  // Whether a request for `len` bytes asks the kernel, with `unread` bytes in the batch
  // buffer (usock.c:1072-1083).
  predicate Asks(unread: nat, len: nat) { unread == 0 || len > unread }

  // The size of the buffer given to the kernel.
  function Room(length: nat): nat { if length > BATCH_SIZE then length else BATCH_SIZE }

  // The bytes that the kernel returns for it.
  function Fresh(unread: nat, len: nat, k: Kernel): seq<byte> {
    if !Asks(unread, len) then []
    else
      Returned(k, Room(len - unread))
  }

  // What becomes of a descriptor that comes with the bytes (usock.c:1122-1154).
  function TakeFd(f: Fds, k: Kernel): Fds {
    if !k.Ready? || k.fd == None then f
    else if f.wanted then Fds(false, k.fd, f.closed)
    else f.(closed := f.closed + [k.fd.value])
  }

  /** A request that the batch buffer can fill takes nothing from the kernel.  Any other takes
      all that the kernel has, unless that is more than both the batch buffer and the rest of
      the request can hold; what goes into the batch buffer fits into it. */
  lemma FreshExact(unread: nat, len: nat, k: Kernel)
    ensures Fresh(unread, len, k) != [] <==> k.Ready? && (unread == 0 || unread < len)
    ensures k.Ready? ==>
      var f := Fresh(unread, len, k);
      && f <= k.bytes && (|f| <= BATCH_SIZE || unread + |f| <= len)
      && (f == [] || f == k.bytes || (|f| >= BATCH_SIZE && unread + |f| >= len))
  {
  }

  /** A descriptor goes to the caller that wants one and has none yet, or is closed. */
  lemma FdExact(f: Fds, k: Kernel)
    ensures var r := TakeFd(f, k);
      if k.Ready? && k.fd.Some? then
        if f.wanted then r.got == k.fd && !r.wanted && r.closed == f.closed
        else r.got == f.got && !r.wanted && r.closed == f.closed + [k.fd.value]
      else r == f
  {
  }

  // Bytes written into a buffer at an offset, and nothing else.
  predicate Wrote(before: seq<byte>, after: seq<byte>, at: nat, bytes: seq<byte>) {
    at + |bytes| <= |before| && after == before[..at] + bytes + before[at + |bytes|..]
  }

  method Write(dst: array<byte>, at: nat, src: seq<byte>)
    requires at + |src| <= dst.Length
    modifies dst
    ensures Wrote(old(dst[..]), dst[..], at, src)
  {
    Copy(dst, at, src);
    assert dst[..] == dst[..at + |src|] + dst[at + |src|..];
  }

  // What a request has got so far: the bytes between start and pos are the latest delivered.
  predicate Filled(b: seq<byte>, start: nat, pos: nat, len: nat, delivered: seq<byte>) {
    && start <= pos && pos + len <= |b|
    && pos - start <= |delivered|
    && b[start..pos] == delivered[|delivered| - (pos - start)..]
  }

  class In {
    const batch: array<byte>                   // the batch buffer
    var batchLen: nat
    var batchPos: nat
    var buf: array<byte>                       // the request in progress: where the next byte goes
    var pos: nat
    var len: nat                               // and how many are missing
    var fds: Fds
    var pollIn: bool                           // the worker is asked to watch for input
    var alive: bool
    var raised: seq<Event>
    ghost var returned: seq<byte>              // all that the kernel returned
    ghost var delivered: seq<byte>             // all that went to the callers' buffers
    ghost var start: nat                       // where the request in progress began

    ghost function Unread(): (u: seq<byte>)
      requires batchPos <= batchLen <= batch.Length
      reads this`batchPos, this`batchLen, batch
      ensures |u| == batchLen - batchPos
    {
      batch[batchPos..batchLen]
    }

    // No byte is lost, duplicated or reordered.
    ghost predicate Lossless(): (r: bool)
      reads this`batchPos, this`batchLen, this`returned, this`delivered, batch
      ensures r ==> batchPos <= batchLen <= batch.Length
    {
      && batch.Length == BATCH_SIZE && batchPos <= batchLen <= BATCH_SIZE
      && delivered + Unread() == returned
    }

    // What the request in progress has got so far.
    ghost predicate Filling()
      reads this`buf, this`start, this`pos, this`len, this`delivered, buf
    {
      buf != batch && Filled(buf[..], start, pos, len, delivered)
    }

    ghost predicate Valid()
      reads this, batch, buf
    {
      Lossless() && (len > 0 ==> Filling()) && (pollIn ==> len > 0)
    }

    constructor ()
      ensures Valid() && fresh(batch) && alive && len == 0 && raised == [] && delivered == []
      ensures fds == Fds(false, None, [])
    {
      batch := new byte[BATCH_SIZE];
      buf := new byte[0];
      batchLen, batchPos, pos, len, pollIn, alive, raised := 0, 0, 0, 0, false, true, [];
      fds := Fds(false, None, []);
      returned, delivered, start := [], [], 0;
    }

    // Copying from the batch buffer.
    method FromBatch(dst: array<byte>, at: nat, sz: nat)
      requires Lossless() && dst != batch && sz <= batchLen - batchPos && at + sz <= dst.Length
      modifies this`batchPos, this`delivered, dst
      ensures Lossless() && delivered == old(delivered) + old(Unread())[..sz]
      ensures Unread() == old(Unread())[sz..]
      ensures Wrote(old(dst[..]), dst[..], at, old(Unread())[..sz])
    {
      hide Wrote;
      ghost var was := Unread();
      Regroup(delivered, was, sz);
      SubSlice(batch[..], batchPos, batchLen, sz);
      Write(dst, at, batch[batchPos..batchPos + sz]);
      delivered := delivered + was[..sz];
      batchPos := batchPos + sz;
    }

    /** grid_usock_recv_raw: the caller gets, in order, what was left in the batch buffer and
        what the kernel returned, as much of it as was asked for; the rest is kept.  It fails
        only when the kernel is asked and the connection is gone. */
    method RecvRaw(dst: array<byte>, at: nat, want: nat, k: Kernel) returns (ok: bool, n: nat)
      requires Lossless() && dst != batch && at + want <= dst.Length
      modifies this`batchLen, this`batchPos, this`returned, this`delivered, this`fds, batch, dst
      ensures Lossless()
      ensures fds == if Asks(|old(Unread())|, want) then TakeFd(old(fds), k) else old(fds)
      ensures ok <==> !(k.Gone? && Asks(|old(Unread())|, want))
      ensures ok ==>
        var all := old(Unread()) + Fresh(|old(Unread())|, want, k);
        && returned == old(returned) + Fresh(|old(Unread())|, want, k)
        && n == Min(want, |all|)
        && delivered == old(delivered) + all[..n]
        && Wrote(old(dst[..]), dst[..], at, all[..n])
    {
      hide Lossless, Unread, Returned, Wrote, Fresh, Asks, Room, TakeFd, Min;
      MinBounds(batchLen - batchPos, want);
      var left := batchLen - batchPos;
      var sz := Min(left, want);
      ghost var unread := Unread();
      ghost var d0 := dst[..];
      FromBatch(dst, at, sz);
      if left > 0 && sz == want {
        NotAsked(unread, want, k);
        return true, want;
      }
      Asked(unread, want, k);
      NoFd(fds, k);
      if k.Gone? { return false, 0; }
      fds := TakeFd(fds, k);
      ghost var d1 := dst[..];
      ghost var length := want - sz;
      n := FromKernel(dst, at + sz, want - sz, k);
      ghost var got := Fresh(|unread|, want, k);
      MinSum(want, |unread|, |got|);
      Joins(unread, got, d0, d1, dst[..], at, n);
      return true, sz + n;
    }

    // The part of it that asks the kernel: more than a batch goes straight to the caller,
    // less goes through the batch buffer.
    method FromKernel(dst: array<byte>, at: nat, length: nat, k: Kernel) returns (n: nat)
      requires Lossless() && Unread() == [] && !k.Gone? && dst != batch && at + length <= dst.Length
      modifies this`batchLen, this`batchPos, this`returned, this`delivered, batch, dst
      ensures Lossless()
      ensures var got := Returned(k, Room(length));
        && returned == old(returned) + got
        && n == Min(length, |got|)
        && delivered == old(delivered) + got[..n]
        && Wrote(old(dst[..]), dst[..], at, got[..n])
    {
      hide Lossless, Unread, Returned;
      var got := Returned(k, Room(length));
      assert |got| <= Room(length) by { ReturnedFits(k, Room(length)); }
      if length > BATCH_SIZE {
        Direct(dst, at, got);
        return |got|;
      }
      FillBatch(got);
      n := Min(|got|, length);
      FromBatch(dst, at, n);
    }

    method Direct(dst: array<byte>, at: nat, got: seq<byte>)
      requires Lossless() && Unread() == [] && dst != batch && at + |got| <= dst.Length
      modifies this`returned, this`delivered, dst
      ensures Lossless() && returned == old(returned) + got && delivered == old(delivered) + got
      ensures Wrote(old(dst[..]), dst[..], at, got)
    {
      Write(dst, at, got);
      returned, delivered := returned + got, delivered + got;
    }

    method FillBatch(got: seq<byte>)
      requires Lossless() && Unread() == [] && |got| <= BATCH_SIZE
      modifies this`batchLen, this`batchPos, this`returned, batch
      ensures Lossless() && Unread() == got && returned == old(returned) + got
    {
      assert delivered == returned;
      Refill(got);
      returned := returned + got;
    }

    method Refill(got: seq<byte>)
      requires batch.Length == BATCH_SIZE && |got| <= BATCH_SIZE
      modifies this`batchLen, this`batchPos, batch
      ensures batchPos == 0 && batchLen == |got| && Unread() == got
    {
      hide Wrote;
      Write(batch, 0, got);
      WroteFirst(old(batch[..]), batch[..], got);
      batchLen, batchPos := |got|, 0;
      assert batch[0..|got|] == batch[..][0..|got|];
    }

    method Fail()
      modifies this`pollIn, this`alive, this`raised, this`len
      ensures !alive && !pollIn && len == 0 && raised == old(raised) + [Error]
    {
      pollIn, alive, len := false, false, 0;
      raised := raised + [Error];
    }

    // One call of it for a request.
    method Fill(dst: array<byte>, ghost from: nat, at: nat, want: nat, k: Kernel) returns (ok: bool, n: nat)
      requires Lossless() && dst != batch && Filled(dst[..], from, at, want, delivered)
      modifies this`batchLen, this`batchPos, this`returned, this`delivered, this`fds, batch, dst
      ensures Lossless()
      ensures fds == if Asks(|old(Unread())|, want) then TakeFd(old(fds), k) else old(fds)
      ensures ok <==> !(k.Gone? && Asks(|old(Unread())|, want))
      ensures ok ==>
        && n <= want && at + want <= dst.Length
        && n == Min(want, |old(Unread())| + |Fresh(|old(Unread())|, want, k)|)
        && Filled(dst[..], from, at + n, want - n, delivered)
        && returned == old(returned) + Fresh(|old(Unread())|, want, k)
        && delivered == old(delivered) + dst[at..at + n]
    {
      hide Lossless, Unread, Wrote, Fresh, Asks, TakeFd, Filled, Min;
      FilledFits(dst[..], from, at, want, delivered);
      MinBounds(want, |Unread()| + |Fresh(|Unread()|, want, k)|);
      ok, n := RecvRaw(dst, at, want, k);
      if ok { GoesOn(old(dst[..]), dst[..], from, at, want, old(delivered), delivered, n); }
    }

    /** grid_usock_recv: RECEIVED exactly when the request is filled at once, and then with
        the latest bytes of the stream; otherwise it stays in progress.  A descriptor goes to
        a caller that wants one and is closed otherwise. */
    method Recv(dst: array<byte>, at: nat, want: nat, wantsFd: bool, k: Kernel)
      requires Valid() && alive && len == 0 && dst != batch && at + want <= dst.Length
      modifies this, batch, dst
      ensures Valid()
      ensures !alive <==> k.Gone? && Asks(|old(Unread())|, want)
      ensures k.Gone? && |old(Unread())| < want ==> !alive
      ensures |old(Unread())| >= want && |old(Unread())| > 0 ==>
        alive && len == 0 && fds == Fds(wantsFd, None, old(fds).closed)
      ensures raised == old(raised) + (if !alive then [Error] else if len == 0 then [Received] else [])
      ensures alive ==>
        && Filling() && buf == dst && start == at && pos + len == at + want
        && pos == at + Min(want, |old(Unread())| + |Fresh(|old(Unread())|, want, k)|)
        && returned == old(returned) + Fresh(|old(Unread())|, want, k)
        && delivered == old(delivered) + dst[at..pos]
      ensures var f := Fds(wantsFd, None, old(fds).closed);
        fds == if Asks(|old(Unread())|, want) then TakeFd(f, k) else f
    {
      hide Lossless, Unread, Wrote, Fresh, Asks, TakeFd, Filled, Min;
      fds := Fds(wantsFd, None, fds.closed);
      Begun(dst[..], at, want, delivered);
      AsksWhen(|Unread()|, want, |Fresh(|Unread()|, want, k)|);
      var ok, n := Fill(dst, at, at, want, k);
      if !ok { Fail(); return; }
      Adopt(dst, at, n, want);
    }

    // What is left of a new request is done in the background.
    method Adopt(dst: array<byte>, at: nat, n: nat, want: nat)
      requires dst != batch && n <= want && Filled(dst[..], at, at + n, want - n, delivered)
      modifies this`buf, this`start, this`pos, this`len, this`raised
      ensures buf == dst && start == at && pos == at + n && len == want - n && Filling()
      ensures raised == old(raised) + if len == 0 then [Received] else []
    {
      hide Filled;
      buf, start, pos, len := dst, at, at + n, want - n;
      if len == 0 { raised := raised + [Received]; }
    }

    // The task posted for a request in progress.
    method TaskRecv()
      requires Valid() && len > 0
      modifies this`pollIn
      ensures Valid() && pollIn
    {
      hide Lossless, Filling;
      pollIn := true;
    }

    /** GRID_WORKER_FD_IN in the state ACTIVE: the request goes on being filled, and RECEIVED
        is raised exactly when that is done. */
    method HandleIn(k: Kernel)
      requires Valid() && alive && pollIn
      modifies this, batch, buf
      ensures Valid()
      ensures !alive <==> k.Gone? && Asks(|old(Unread())|, old(len))
      ensures raised == old(raised) + (if !alive then [Error] else if len == 0 then [Received] else [])
      ensures alive ==>
        && Filling() && buf == old(buf) && start == old(start)
        && old(pos) <= pos && pos + len == old(pos + len) <= buf.Length
        && pos == old(pos) + Min(old(len), |old(Unread())| + |Fresh(|old(Unread())|, old(len), k)|)
        && returned == old(returned) + Fresh(|old(Unread())|, old(len), k)
        && delivered == old(delivered) + buf[old(pos)..pos]
        && (pollIn <==> len > 0)
      ensures fds == if Asks(|old(Unread())|, old(len)) then TakeFd(old(fds), k) else old(fds)
    {
      hide Lossless, Unread, Wrote, Fresh, Asks, TakeFd, Filled, Min;
      FilledFits(buf[..], start, pos, len, delivered);
      var ok, n := Fill(buf, start, pos, len, k);
      if !ok { Fail(); return; }
      pos, len := pos + n, len - n;
      if len == 0 { pollIn, raised := false, raised + [Received]; }
    }
  }

  lemma FilledFits(b: seq<byte>, start: nat, pos: nat, len: nat, d: seq<byte>)
    requires Filled(b, start, pos, len, d)
    ensures start <= pos && pos + len <= |b|
  {
  }

  lemma Begun(b: seq<byte>, at: nat, len: nat, d: seq<byte>)
    requires at + len <= |b|
    ensures Filled(b, at, at, len, d)
  {
  }

  // More bytes for a request.
  lemma GoesOn(b0: seq<byte>, b1: seq<byte>, start: nat, pos: nat, len: nat, d0: seq<byte>, d1: seq<byte>, n: nat)
    requires Filled(b0, start, pos, len, d0) && n <= len
    requires |d1| == |d0| + n && d1[..|d0|] == d0 && Wrote(b0, b1, pos, d1[|d0|..])
    ensures Filled(b1, start, pos + n, len - n, d1)
    ensures |b1| == |b0| && start <= pos <= pos + n <= |b1| && d1 == d0 + b1[pos..pos + n]
  {
    WroteAt(b0, b1, pos, d1[|d0|..]);
    assert b1[start..pos] == b0[start..pos] by { assert b1[..pos] == b0[..pos]; }
    StillFilling(d0, d1, b1, start, pos, pos + n);
  }

  lemma NoFd(f: Fds, k: Kernel)
    ensures k.Gone? ==> TakeFd(f, k) == f
  {
  }

  // A request that the batch buffer can fill, and one of which it has less.
  lemma AsksWhen(unread: nat, want: nat, more: nat)
    ensures Asks(unread, want) <==> unread == 0 || unread < want
    ensures want <= unread ==> Min(want, unread + more) == want
  {
  }

  lemma MinBounds(a: nat, b: nat)
    ensures Min(a, b) <= a && Min(a, b) <= b && (Min(a, b) == a || Min(a, b) == b)
    ensures Min(a, b) == Min(b, a)
  {
  }

  lemma MinSum(want: nat, a: nat, b: nat)
    requires a <= want
    ensures a + Min(want - a, b) == Min(want, a + b) && Min(want - a, b) <= b
  {
  }

  lemma NotAsked(unread: seq<byte>, want: nat, k: Kernel)
    requires |unread| > 0 && want <= |unread|
    ensures Fresh(|unread|, want, k) == []
    ensures !Asks(|unread|, want) && unread + Fresh(|unread|, want, k) == unread
  {
  }

  lemma Asked(unread: seq<byte>, want: nat, k: Kernel)
    requires |unread| == 0 || want > |unread|
    ensures Asks(|unread|, want) && unread[..|unread|] == unread
    ensures Fresh(|unread|, want, k) == Returned(k, Room(want - |unread|))
  {
  }

  lemma StillFilling(d0: seq<byte>, d1: seq<byte>, b: seq<byte>, start: nat, mid: nat, pos: nat)
    requires start <= mid <= pos <= |b| && mid - start <= |d0|
    requires b[start..mid] == d0[|d0| - (mid - start)..] && d1 == d0 + b[mid..pos]
    ensures pos - start <= |d1| && b[start..pos] == d1[|d1| - (pos - start)..]
  {
    assert b[start..pos] == b[start..mid] + b[mid..pos];
  }

  // ---------- Sending ----------

  // What sendmsg answers: how many bytes it took, none for now, or a broken connection.
  datatype Answer = Took(n: nat) | Blocked | Broken

  datatype Result = Done | Pending | Reset

  function Concat(s: seq<seq<byte>>): seq<byte> {
    if s == [] then [] else s[0] + Concat(s[1..])
  }

  lemma ConcatCons(x: seq<byte>, s: seq<seq<byte>>)
    ensures Concat([x] + s) == x + Concat(s)
  {
    assert ([x] + s)[1..] == s;
  }

  lemma {:induction false} ConcatAppend(s: seq<seq<byte>>, x: seq<byte>)
    ensures Concat(s + [x]) == Concat(s) + x
  {
    if s != [] {
      assert (s + [x])[1..] == s[1..] + [x];
      ConcatAppend(s[1..], x);
    } else {
      assert Concat([x]) == x + Concat([]);
    }
  }

  lemma ConcatTake(s: seq<seq<byte>>, i: nat)
    requires i <= |s|
    ensures i < |s| ==> Concat(s[..i + 1]) == Concat(s[..i]) + s[i]
  {
    if i < |s| {
      ConcatAppend(s[..i], s[i]);
      assert s[..i + 1] == s[..i] + [s[i]];
    }
  }

  class Out {
    const iov: array<seq<byte>>                // the buffers, without the bytes already sent
    var first: nat                             // hdr.msg_iov
    var count: nat                             // hdr.msg_iovlen
    var pollOut: bool
    var alive: bool
    var raised: seq<Event>
    ghost var written: seq<byte>               // all that the kernel took

    ghost predicate Valid(): (r: bool)
      reads this`first, this`count, iov
      ensures r ==> first + count <= iov.Length == MAX_IOVCNT
    {
      && iov.Length == MAX_IOVCNT && first + count <= MAX_IOVCNT
      && (forall i :: first <= i < first + count ==> iov[i] != [])
    }

    ghost function Rest(): seq<byte>
      requires first + count <= iov.Length
      reads this`first, this`count, iov
    {
      Concat(iov[first..first + count])
    }

    constructor ()
      ensures Valid() && fresh(iov) && Rest() == [] && alive && !pollOut && raised == [] && written == []
    {
      iov := new seq<byte>[MAX_IOVCNT](_ => []);
      first, count, pollOut, alive, raised, written := 0, 0, false, true, [], [];
    }

    /** grid_usock_send_raw: the bytes the kernel took are gone from the front of what is to
        be sent, nothing else is, and it reports success exactly when nothing remains. */
    method SendRaw(k: Answer) returns (rc: Result)
      requires Valid() && (k.Took? ==> k.n <= |Rest()|)
      modifies this`first, this`count, this`written, iov
      ensures Valid()
      ensures rc == Reset <==> k.Broken?
      ensures rc == Reset ==> Rest() == old(Rest()) && written == old(written)
      ensures rc != Reset ==>
        var n := if k.Took? then k.n else 0;
        && Rest() == old(Rest())[n..] && written == old(written) + old(Rest())[..n]
      ensures rc == Done ==> Rest() == []
      ensures rc == Pending ==> Rest() != []
    {
      hide Rest, Concat;
      if k.Broken? { return Reset; }
      var nbytes := if k.Took? then k.n else 0;
      ghost var rest, n := Rest(), nbytes;
      written := written + rest[..n];
      while nbytes > 0
        invariant Valid() && 0 <= nbytes <= |Rest()| && n <= |rest|
        invariant written == old(written) + rest[..n]
        invariant Rest()[nbytes..] == rest[n..]
        decreases nbytes
      {
        HeadOf();
        if nbytes >= |iov[first]| {
          if count == 1 {
            count := count - 1;
            HeadOf();
            return Done;
          }
          nbytes := nbytes - |iov[first]|;
          Skip();
        } else {
          Trim(nbytes);
          HeadOf();
          return Pending;
        }
      }
      HeadOf();
      return if count > 0 then Pending else Done;
    }

    // The first buffer and what is to be sent.
    lemma HeadOf()
      requires Valid()
      ensures count == 0 <==> Rest() == []
      ensures count > 0 ==> 0 < |iov[first]| <= |Rest()|
      ensures count == 1 ==> Rest() == iov[first]
    {
      if count > 0 {
        ghost var tail := iov[first + 1..first + count];
        assert iov[first..first + count] == [iov[first]] + tail;
        ConcatCons(iov[first], tail);
      }
    }

    method Skip()
      requires Valid() && count > 0
      modifies this`first, this`count
      ensures Valid() && count == old(count) - 1
      ensures |old(iov[first])| <= |old(Rest())| && Rest() == old(Rest())[|old(iov[first])|..]
    {
      ghost var head, tail := iov[first], iov[first + 1..first + count];
      assert iov[first..first + count] == [head] + tail;
      ConcatCons(head, tail);
      count := count - 1;
      first := first + 1;
    }

    method Trim(n: nat)
      requires Valid() && count > 0 && n < |iov[first]|
      modifies iov
      ensures Valid() && n <= |old(Rest())| && Rest() == old(Rest())[n..]
    {
      ghost var head, tail := iov[first], iov[first + 1..first + count];
      assert iov[first..first + count] == [head] + tail;
      ConcatCons(head, tail);
      iov[first] := iov[first][n..];
      assert iov[first..first + count] == [head[n..]] + tail;
      ConcatCons(head[n..], tail);
    }

    /** grid_usock_send: the empty buffers are left out; SENT is raised exactly when the
        kernel has taken all bytes of the others, in order. */
    method Send(bufs: seq<seq<byte>>, k: Answer)
      requires Valid() && alive && |bufs| <= MAX_IOVCNT && (k.Took? ==> k.n <= |Concat(bufs)|)
      modifies this, iov
      ensures Valid()
      ensures !alive <==> k.Broken?
      ensures raised == old(raised) + (if !alive then [Error] else if Rest() == [] then [Event.Sent] else [])
      ensures written + Rest() == old(written) + Concat(bufs)
      ensures written == old(written) + Concat(bufs)[..if k.Took? then k.n else 0]
      ensures pollOut <==> alive && old(pollOut)
    {
      hide Valid, Rest, Concat;
      Load(bufs);
      var rc := SendRaw(k);
      Parts(Concat(bufs), if k.Took? then k.n else 0);
      if rc == Done { raised := raised + [Event.Sent]; }
      else if rc == Reset { pollOut, alive, raised := false, false, raised + [Error]; }
    }

    // Copying the buffers that are not empty.
    method Load(bufs: seq<seq<byte>>)
      requires iov.Length == MAX_IOVCNT && |bufs| <= MAX_IOVCNT
      modifies this`first, this`count, iov
      ensures Valid() && Rest() == Concat(bufs)
    {
      hide Concat;
      first := 0;
      var out := 0;
      ConcatTake(bufs, 0);
      assert iov[..0] == bufs[..0];
      for i := 0 to |bufs|
        modifies iov
        invariant out <= i
        invariant forall j :: 0 <= j < out ==> iov[j] != []
        invariant Concat(iov[..out]) == Concat(bufs[..i])
      {
        ConcatTake(bufs, i);
        if bufs[i] != [] {
          ghost var front := iov[..out];
          iov[out] := bufs[i];
          assert iov[..out] == front;
          ConcatTake(iov[..], out);
          assert iov[..][..out] == front && iov[..][..out + 1] == iov[..out + 1];
          out := out + 1;
        }
      }
      assert bufs[..|bufs|] == bufs;
      count := out;
      assert iov[first..first + count] == iov[..out];
    }

    // The task posted for a message in progress.
    method TaskSend()
      modifies this`pollOut
      ensures pollOut
    {
      pollOut := true;
    }

    /** GRID_WORKER_FD_OUT in the state ACTIVE: the rest goes on being sent. */
    method HandleOut(k: Answer)
      requires Valid() && alive && pollOut && (k.Took? ==> k.n <= |Rest()|)
      modifies this, iov
      ensures Valid()
      ensures !alive <==> k.Broken?
      ensures raised == old(raised) + (if !alive then [Error] else if Rest() == [] then [Event.Sent] else [])
      ensures written + Rest() == old(written + Rest())
      ensures written == old(written) + old(Rest())[..if k.Took? then k.n else 0]
      ensures pollOut <==> alive && Rest() != []
    {
      hide Valid, Rest;
      var rc := SendRaw(k);
      Parts(old(Rest()), if k.Took? then k.n else 0);
      if rc == Done { pollOut, raised := false, raised + [Event.Sent]; }
      else if rc == Reset { pollOut, alive, raised := false, false, raised + [Error]; }
    }
  }

  lemma WroteFirst(before: seq<byte>, after: seq<byte>, bytes: seq<byte>)
    requires Wrote(before, after, 0, bytes)
    ensures |after| == |before| && after[0..|bytes|] == bytes
  {
  }

  lemma WroteAt(before: seq<byte>, after: seq<byte>, at: nat, bytes: seq<byte>)
    requires Wrote(before, after, at, bytes)
    ensures |after| == |before| && at + |bytes| <= |after| && after[at..at + |bytes|] == bytes
    ensures after[..at] == before[..at]
  {
  }

  lemma ReturnedFits(k: Kernel, size: nat)
    ensures |Returned(k, size)| <= size
  {
  }

  lemma Parts(s: seq<byte>, n: nat)
    requires n <= |s|
    ensures forall w: seq<byte> {:trigger (w + s[..n]) + s[n..]} :: (w + s[..n]) + s[n..] == w + s
    ensures s[..0] == [] && s[0..] == s
  {
    forall w: seq<byte> ensures (w + s[..n]) + s[n..] == w + s { Regroup(w, s, n); }
  }

  lemma Regroup(d: seq<byte>, s: seq<byte>, n: nat)
    requires n <= |s|
    ensures d + s == (d + s[..n]) + s[n..]
  {
  }

  lemma SubSlice(b: seq<byte>, lo: nat, hi: nat, n: nat)
    requires lo + n <= hi <= |b|
    ensures b[lo..hi][..n] == b[lo..lo + n] && b[lo..hi][n..] == b[lo + n..hi]
  {
  }

  // What was copied from the batch buffer and what came from the kernel, in the caller's.
  lemma Joins(unread: seq<byte>, got: seq<byte>, d0: seq<byte>, d1: seq<byte>, d2: seq<byte>, at: nat, n: nat)
    requires n <= |got|
    requires Wrote(d0, d1, at, unread) && Wrote(d1, d2, at + |unread|, got[..n])
    ensures (unread + got)[..|unread| + n] == unread + got[..n]
    ensures Wrote(d0, d2, at, (unread + got)[..|unread| + n])
  {
  }
}

/** Ancillary data (src/core/global.c and the macros of src/grid.h:283-303): how recvmsg
    lays out the SP header in a control buffer and how sendmsg finds it again.  The layout
    is that of a little-endian machine with 64-bit size_t and 32-bit int. */
module Cmsg {
  import opened Bytes

  const WORD: nat := 8                              // sizeof (size_t)
  const HEAD: nat := 16                             // sizeof (struct grid_cmsghdr)
  const WRAP: nat := 0x1_0000_0000_0000_0000        // size_t arithmetic is modulo this
  const PROTO_SP: nat := 1
  const SP_HDR: nat := 1

  // ---------- Little-endian numbers ----------

  function LE(v: nat, n: nat): (b: seq<byte>)
    ensures |b| == n
  {
    if n == 0 then [] else [v % 0x100] + LE(v / 0x100, n - 1)
  }

  function Val(b: seq<byte>): nat {
    if b == [] then 0 else b[0] + 0x100 * Val(b[1..])
  }

  function Limit(n: nat): nat { if n == 0 then 1 else 0x100 * Limit(n - 1) }

  lemma {:induction false} ValLE(v: nat, n: nat)
    requires v < Limit(n)
    ensures Val(LE(v, n)) == v
  {
    if n > 0 { ValLE(v / 0x100, n - 1); }
  }

  lemma Limits()
    ensures Limit(8) == WRAP && Limit(4) == 0x1_0000_0000
  {
    assert Limit(4) == 0x1_0000_0000;
  }

  // ---------- The macros ----------

  // GRID_CMSG_ALIGN_, wrapping around as size_t does.
  function Align(len: nat): nat { (len + WORD - 1) % WRAP / WORD * WORD }

  // GRID_CMSG_SPACE.
  function Space(len: nat): nat { Align(len) + HEAD }

  lemma AlignBounds(len: nat)
    requires len + HEAD + WORD <= WRAP
    ensures len <= Align(len) < len + WORD && Align(len) % WORD == 0
    ensures Align(len + HEAD) == Align(len) + HEAD
    ensures len % WORD == 0 ==> Align(len) == len
  {
  }

  // ---------- The properties of a buffer ----------

  datatype Next = Here | End | Outside

  // Where there are at least HEAD bytes, the fields of the property at an offset.
  function LenAt(c: seq<byte>, o: nat): nat
    requires o + HEAD <= |c|
  {
    Val(c[o..o + 8])
  }

  predicate IsSpHdr(c: seq<byte>, o: nat)
    requires o + HEAD <= |c|
  {
    Val(c[o + 8..o + 12]) == PROTO_SP && Val(c[o + 12..o + 16]) == SP_HDR
  }

  // The offset after the property at o; pointers wrap around like sizes.
  function After(c: seq<byte>, o: nat): nat
    requires o + HEAD <= |c|
  {
    (o + Align(LenAt(c, o))) % WRAP
  }

  // grid_cmsg_nxthdr_ once it has the offset: whether there is a property there.  Outside
  // is a property whose head would be read from outside the buffer, which only a length
  // that wraps around leads to.
  function Probe(c: seq<byte>, o: nat): (n: Next)
    ensures n == Here ==> o + HEAD <= |c| && After(c, o) <= |c|
  {
    if |c| < Space(0) || (o + Space(0)) % WRAP > |c| then End
    else if o + HEAD > |c| then Outside
    else if After(c, o) > |c| then End
    else Here
  }

  datatype Search = Found(at: nat) | Absent | Astray | Forever

  // The loop at global.c:819-837 looks for the SP header.  `left` are the offsets it has
  // not seen; back at one it has seen, it goes round forever.
  function Find(c: seq<byte>, o: nat, left: set<nat>): (s: Search)
    ensures s.Found? ==> Probe(c, s.at) == Here && IsSpHdr(c, s.at)
    decreases left
  {
    match Probe(c, o)
    case End => Absent
    case Outside => Astray
    case Here =>
      if IsSpHdr(c, o) then Found(o)
      else if o !in left then Forever
      else Find(c, After(c, o), left - {o})
  }

  predicate IsOffset(c: seq<byte>, k: nat) { k <= |c| }

  function Offsets(c: seq<byte>): set<nat> { set k: nat | k <= |c| && IsOffset(c, k) }

  function FindSpHdr(c: seq<byte>): Search { Find(c, 0, Offsets(c)) }

  // global.c:822-833.  None: the bytes would come from outside the buffer.
  function HeaderAt(c: seq<byte>, o: nat): Option<seq<byte>>
    requires Probe(c, o) == Here
  {
    var clen := (LenAt(c, o) + WRAP - Space(0)) % WRAP;
    var ptr := o + HEAD;
    if clen <= WORD then Some([])
    else if ptr + WORD > |c| then None
    else
      var spsz := Val(c[ptr..ptr + WORD]);
      if spsz > clen - WORD then Some([])
      else if ptr + WORD + spsz > |c| then None
      else Some(c[ptr + WORD..ptr + WORD + spsz])
  }

  // The header that sendmsg takes out of a control buffer, empty when it finds none.
  function HeaderOf(c: seq<byte>): Option<seq<byte>> {
    match FindSpHdr(c)
    case Found(o) => HeaderAt(c, o)
    case Absent => Some([])
    case _ => None
  }

  // ---------- Walks ----------

  // Where a walk from the start of a buffer is after n moves, or where it ended.
  function Iterate(next: nat -> Option<nat>, n: nat): nat {
    if n == 0 then 0
    else
      var o := Iterate(next, n - 1);
      if next(o).Some? then next(o).value else o
  }

  ghost predicate Endless(next: nat -> Option<nat>) {
    forall n: nat :: next(Iterate(next, n)).Some?
  }

  // It comes back to an offset, and goes on up to there.
  ghost predicate Cycle(next: nat -> Option<nat>, m: nat, n: nat) {
    m < n && Iterate(next, m) == Iterate(next, n) && forall j: nat :: j < n ==> next(Iterate(next, j)).Some?
  }

  lemma {:induction false} Periodic(next: nat -> Option<nat>, m: nat, n: nat, k: nat)
    requires Cycle(next, m, n)
    ensures next(Iterate(next, k)).Some?
    ensures k >= n ==> Iterate(next, k) == Iterate(next, k - (n - m))
    decreases k
  {
    if k > n {
      Periodic(next, m, n, k - 1);
      Periodic(next, m, n, k - (n - m));
    }
  }

  // The walk was at o before its move number n.
  ghost predicate Been(next: nat -> Option<nat>, n: nat, o: nat) {
    exists m: nat :: m < n && Iterate(next, m) == o
  }

  // `left` are the offsets where it was not.
  lemma {:induction false} ComesBack(c: seq<byte>, next: nat -> Option<nat>, n: nat, left: set<nat>)
    requires Endless(next) && forall o: nat :: next(o).Some? ==> IsOffset(c, o)
    requires forall o: nat :: IsOffset(c, o) && o !in left ==> Been(next, n, o)
    ensures exists m: nat, k: nat :: Cycle(next, m, k)
    decreases left
  {
    hide IsOffset;
    var o := Iterate(next, n);
    if o in left {
      BeenAlso(c, next, n, left);
      ComesBack(c, next, n + 1, left - {o});
    } else {
      assert next(o).Some?;
      assert Been(next, n, o);
      var m: nat :| m < n && Iterate(next, m) == o;
      assert Cycle(next, m, n);
    }
  }

  lemma BeenAlso(c: seq<byte>, next: nat -> Option<nat>, n: nat, left: set<nat>)
    requires forall o: nat :: IsOffset(c, o) && o !in left ==> Been(next, n, o)
    ensures forall o: nat :: IsOffset(c, o) && o !in left - {Iterate(next, n)} ==> Been(next, n + 1, o)
  {
    hide IsOffset;
    forall o: nat | IsOffset(c, o) && o !in left - {Iterate(next, n)} ensures Been(next, n + 1, o) {
      if o != Iterate(next, n) { assert Been(next, n, o); }
    }
  }

  /** A walk over a buffer goes on forever exactly when it comes back to an offset. */
  lemma EndlessExact(c: seq<byte>, next: nat -> Option<nat>)
    requires forall o: nat :: next(o).Some? ==> IsOffset(c, o)
    ensures Endless(next) <==> exists m: nat, n: nat :: Cycle(next, m, n)
  {
    if Endless(next) { ComesBack(c, next, 0, Offsets(c)); }
    if exists m: nat, n: nat :: Cycle(next, m, n) {
      var m: nat, n: nat :| Cycle(next, m, n);
      forall k: nat ensures next(Iterate(next, k)).Some? { Periodic(next, m, n, k); }
    }
  }

  // ---------- When the search ends ----------

  // The search moves on from o.
  predicate GoesOn(c: seq<byte>, o: nat) {
    Probe(c, o) == Here && !IsSpHdr(c, o)
  }

  function Seek(c: seq<byte>): nat -> Option<nat> {
    o => if GoesOn(c, o) then Some(After(c, o)) else None
  }

  function Nth(c: seq<byte>, n: nat): nat { Iterate(Seek(c), n) }

  lemma NthStep(c: seq<byte>, n: nat)
    ensures Nth(c, 0) == 0
    ensures Nth(c, n + 1) == if GoesOn(c, Nth(c, n)) then After(c, Nth(c, n)) else Nth(c, n)
  {
    hide GoesOn, After;
  }

  lemma SeekInside(c: seq<byte>)
    ensures forall o: nat :: Seek(c)(o).Some? ==> IsOffset(c, o)
    ensures forall o: nat :: Seek(c)(o).Some? <==> GoesOn(c, o)
    ensures Endless(Seek(c)) <==> forall n: nat :: GoesOn(c, Nth(c, n))
  {
    hide After, IsSpHdr;
    assert forall o: nat :: GoesOn(c, o) ==> IsOffset(c, o);
    if Endless(Seek(c)) {
      forall n: nat ensures GoesOn(c, Nth(c, n)) { assert Seek(c)(Iterate(Seek(c), n)).Some?; }
    }
    if forall n: nat :: GoesOn(c, Nth(c, n)) {
      forall n: nat ensures Seek(c)(Iterate(Seek(c), n)).Some? { assert GoesOn(c, Nth(c, n)); }
    }
  }

  lemma {:induction false} FindFrom(c: seq<byte>, n: nat, left: set<nat>)
    requires forall j: nat :: j < n ==> GoesOn(c, Nth(c, j))
    requires forall k: nat :: IsOffset(c, k) && k !in left ==> Been(Seek(c), n, k)
    ensures Find(c, Nth(c, n), left) == Forever <==> Endless(Seek(c))
    decreases left
  {
    hide IsSpHdr, After, Endless, Been, Seek, Iterate;
    var o := Nth(c, n);
    SeekInside(c);
    if GoesOn(c, o) {
      assert IsOffset(c, o);
      if o in left {
        NthStep(c, n);
        BeenAlso(c, Seek(c), n, left);
        FindFrom(c, n + 1, left - {o});
      } else {
        BackAt(c, n);
      }
    }
  }

  lemma BackAt(c: seq<byte>, n: nat)
    requires Been(Seek(c), n, Nth(c, n)) && forall j: nat :: j < n ==> GoesOn(c, Nth(c, j))
    ensures Endless(Seek(c))
  {
    hide GoesOn, After;
    SeekInside(c);
    var m: nat :| m < n && Iterate(Seek(c), m) == Iterate(Seek(c), n);
    forall j: nat | j < n ensures Seek(c)(Iterate(Seek(c), j)).Some? { assert GoesOn(c, Nth(c, j)); }
    assert Cycle(Seek(c), m, n);
    EndlessExact(c, Seek(c));
  }

  /** The search answers Forever exactly when no number of moves ends it. */
  lemma ForeverMeans(c: seq<byte>)
    ensures FindSpHdr(c) == Forever <==> forall n: nat :: GoesOn(c, Nth(c, n))
  {
    hide GoesOn, Seek, Iterate;
    SeekInside(c);
    NthStep(c, 0);
    FindFrom(c, 0, Offsets(c));
  }

  /** It goes on forever exactly when it comes back to an offset, whatever the lengths are. */
  lemma CycleExact(c: seq<byte>)
    ensures FindSpHdr(c) == Forever <==> exists m: nat, n: nat :: Cycle(Seek(c), m, n)
  {
    hide GoesOn, Seek, Iterate, Cycle, Endless;
    SeekInside(c);
    ForeverMeans(c);
    EndlessExact(c, Seek(c));
  }

  // No object takes up half of the address space.
  predicate InMemory(c: seq<byte>) { 2 * |c| + 2 * HEAD <= WRAP }

  // The search comes to a property of no length.
  predicate EmptyAt(c: seq<byte>, n: nat) {
    GoesOn(c, Nth(c, n)) && LenAt(c, Nth(c, n)) == 0
  }

  lemma MovesOn(c: seq<byte>, o: nat)
    requires InMemory(c) && o + HEAD <= |c| && 0 < LenAt(c, o) <= |c|
    ensures After(c, o) > o
  {
    hide Align, LenAt;
    AlignBounds(LenAt(c, o));
  }

  lemma {:induction false} Advances(c: seq<byte>, n: nat)
    requires InMemory(c)
    requires forall j: nat :: j < n ==> GoesOn(c, Nth(c, j)) && 0 < LenAt(c, Nth(c, j)) <= |c|
    ensures Nth(c, n) >= n
  {
    hide Align, IsSpHdr, LenAt, Val, After;
    if n > 0 {
      Advances(c, n - 1);
      MovesOn(c, Nth(c, n - 1));
    }
  }

  /** When no length exceeds the buffer, the search goes on forever exactly when it comes to
      a property of no length. */
  lemma StuckExact(c: seq<byte>)
    requires InMemory(c)
    requires forall n: nat :: GoesOn(c, Nth(c, n)) ==> LenAt(c, Nth(c, n)) <= |c|
    ensures FindSpHdr(c) == Forever <==> exists n: nat :: EmptyAt(c, n)
  {
    hide IsSpHdr;
    ForeverMeans(c);
    if FindSpHdr(c) == Forever && !exists n: nat :: EmptyAt(c, n) {
      forall n: nat ensures GoesOn(c, Nth(c, n)) && LenAt(c, Nth(c, n)) > 0 {
        assert !EmptyAt(c, n);
      }
      Advances(c, |c| + 1);
    }
    forall n: nat, k: nat | EmptyAt(c, n) ensures GoesOn(c, Nth(c, k)) { Halts(c, n, k); }
  }

  // ---------- Reading outside the buffer ----------

  lemma {:induction false} FindInside(c: seq<byte>, o: nat, left: set<nat>)
    requires InMemory(c) && o <= |c|
    ensures Find(c, o, left) != Astray
    decreases left
  {
    hide IsSpHdr, After, Align;
    SpaceIs();
    if Probe(c, o) == Here && !IsSpHdr(c, o) && o in left { FindInside(c, After(c, o), left - {o}); }
  }

  lemma SpaceIs()
    ensures Space(0) == HEAD
  {
  }

  lemma {:induction false} ValBound(b: seq<byte>)
    ensures Val(b) < Limit(|b|)
  {
    if b != [] { ValBound(b[1..]); }
  }

  // The length at o is shorter than a head, or longer than what is left of the buffer.
  predicate Misfit(c: seq<byte>, o: nat)
    requires o + HEAD <= |c|
  {
    LenAt(c, o) < HEAD || o + LenAt(c, o) > |c|
  }

  // The SP header is said to be longer than what is left of the buffer, but not than the
  // property, whose length below that of a head wraps around (global.c:823-826).
  predicate Overruns(c: seq<byte>, o: nat)
    requires o + HEAD <= |c|
  {
    && Misfit(c, o)
    && (o + HEAD + WORD > |c|
        || |c| - (o + HEAD + WORD) < Val(c[o + HEAD..o + HEAD + WORD])
             <= (LenAt(c, o) + WRAP - HEAD) % WRAP - WORD)
  }

  // Such a length is either very short or wraps around.
  lemma MisfitLength(c: seq<byte>, o: nat)
    requires InMemory(c) && Probe(c, o) == Here
    ensures LenAt(c, o) < WRAP
    ensures Misfit(c, o) ==> LenAt(c, o) < HEAD || LenAt(c, o) + |c| + WORD >= WRAP
  {
    hide Val, Limit;
    Limits();
    ValBound(c[o..o + 8]);
    var len := LenAt(c, o);
    if len + HEAD + WORD <= WRAP { AlignBounds(len); }
  }

  lemma WrappedLength(len: nat)
    requires len < WRAP
    ensures (len + WRAP - HEAD) % WRAP == if len >= HEAD then len - HEAD else len + WRAP - HEAD
  {
  }

  lemma OverrunExact(c: seq<byte>, o: nat)
    requires InMemory(c) && Probe(c, o) == Here
    ensures HeaderAt(c, o) == None <==> Overruns(c, o)
  {
    hide Val, LenAt, Probe, After;
    SpaceIs();
    MisfitLength(c, o);
    WrappedLength(LenAt(c, o));
  }

  /** sendmsg reads outside the buffer, or does not come to an end, exactly when the search
      comes back to an offset or the SP header it finds overruns the buffer. */
  lemma NoHeaderExact(c: seq<byte>)
    requires InMemory(c)
    ensures HeaderOf(c) == None <==>
      || (exists m: nat, n: nat :: Cycle(Seek(c), m, n))
      || (FindSpHdr(c).Found? && Overruns(c, FindSpHdr(c).at))
  {
    hide Cycle, Overruns, FindSpHdr, HeaderAt, Probe;
    CycleExact(c);
    SearchInside(c);
    var s := FindSpHdr(c);
    if s.Found? { OverrunExact(c, s.at); }
  }

  lemma SearchInside(c: seq<byte>)
    requires InMemory(c)
    ensures FindSpHdr(c) != Astray
    ensures FindSpHdr(c).Found? ==> Probe(c, FindSpHdr(c).at) == Here
  {
    FindInside(c, 0, Offsets(c));
  }

  // ---------- Buffers that show it ----------

  lemma LenOf(c: seq<byte>, o: nat, v: nat)
    requires v < WRAP && o + HEAD <= |c| && c[o..o + 8] == LE(v, 8)
    ensures LenAt(c, o) == v
  {
    Limits();
    ValLE(v, 8);
  }

  function Zeros(n: nat): seq<byte> { seq(n, _ => 0) }

  lemma {:induction false} ZeroVal(b: seq<byte>)
    requires forall i :: 0 <= i < |b| ==> b[i] == 0
    ensures Val(b) == 0
  {
    if b != [] { ZeroVal(b[1..]); }
  }

  lemma NotSpHdr(c: seq<byte>, o: nat)
    requires o + HEAD <= |c| && forall i :: o + 8 <= i < o + 12 ==> c[i] == 0
    ensures !IsSpHdr(c, o)
  {
    ZeroVal(c[o + 8..o + 12]);
  }

  /** A buffer of zeros: the property has no length. */
  lemma EmptyPropertyHangs()
    ensures FindSpHdr(Zeros(HEAD)) == Forever && EmptyAt(Zeros(HEAD), 0)
  {
    hide Find, Val, Align;
    var c := Zeros(HEAD);
    NotSpHdr(c, 0);
    ZeroVal(c[0..8]);
    AlignBounds(0);
    assert EmptyAt(c, 0);
    StandsStill(c, 0);
    assert Nth(c, 1) == 0;
    assert Cycle(Seek(c), 0, 1);
    CycleExact(c);
  }

  // Two properties of which the second leads back to the first.
  function Loop(): seq<byte> { LE(32, 8) + Zeros(24) + LE(WRAP - 32, 8) + Zeros(24) }

  lemma LoopFields()
    ensures |Loop()| == 64 && LenAt(Loop(), 0) == 32 && LenAt(Loop(), 32) == WRAP - 32
    ensures !IsSpHdr(Loop(), 0) && !IsSpHdr(Loop(), 32)
  {
    hide LE, Val;
    var c := Loop();
    assert c[0..8] == LE(32, 8) && c[32..40] == LE(WRAP - 32, 8);
    LenOf(c, 0, 32);
    LenOf(c, 32, WRAP - 32);
    NotSpHdr(c, 0);
    NotSpHdr(c, 32);
  }

  /** No property is empty, and still the search does not end: a length that wraps around leads
      back. */
  lemma LongPropertyHangs()
    ensures FindSpHdr(Loop()) == Forever && forall n: nat :: !EmptyAt(Loop(), n)
  {
    hide GoesOn, After, LenAt, Loop, FindSpHdr;
    var c := Loop();
    LoopSteps();
    LoopNth(0);
    LoopNth(1);
    LoopNth(2);
    assert Cycle(Seek(c), 0, 2);
    CycleExact(c);
    forall n: nat ensures !EmptyAt(c, n) { LoopNth(n); }
  }

  lemma LoopSteps()
    ensures var c := Loop();
      && |c| == 64 && GoesOn(c, 0) && After(c, 0) == 32 && GoesOn(c, 32) && After(c, 32) == 0
      && LenAt(c, 0) > 0 && LenAt(c, 32) > 0
  {
    hide Val, IsSpHdr, LenAt, Loop;
    LoopFields();
    SpaceIs();
  }

  lemma {:induction false} LoopNth(n: nat)
    ensures Nth(Loop(), n) == if n % 2 == 0 then 0 else 32
  {
    hide GoesOn, After, Loop;
    LoopSteps();
    if n > 0 { LoopNth(n - 1); }
  }

  // An SP_HDR property whose length is below that of its head.
  function Short(): seq<byte> {
    LE(8, 8) + LE(PROTO_SP, 4) + LE(SP_HDR, 4) + LE(1000, 8) + Zeros(8)
  }

  /** In 32 bytes an SP header of 1000 bytes is found: sendmsg copies from outside the
      buffer. */
  lemma ShortPropertyOverruns()
    ensures |Short()| == 32 && FindSpHdr(Short()) == Found(0) && HeaderOf(Short()) == None
  {
    hide LE, Val, Limit;
    var c := Short();
    Limits();
    assert c[0..8] == LE(8, 8) && c[8..12] == LE(PROTO_SP, 4) && c[12..16] == LE(SP_HDR, 4);
    assert c[16..24] == LE(1000, 8);
    LenOf(c, 0, 8);
    ValLE(PROTO_SP, 4);
    ValLE(SP_HDR, 4);
    ValLE(1000, 8);
    AlignBounds(8);
    SpaceIs();
    assert FindSpHdr(c) == Found(0);
    assert Overruns(c, 0);
    OverrunExact(c, 0);
  }

  lemma StandsStill(c: seq<byte>, o: nat)
    requires InMemory(c) && o + HEAD <= |c| && LenAt(c, o) == 0
    ensures After(c, o) == o
  {
  }

  // A search that stands still never ends; before that it did not end either.
  lemma {:induction false} Halts(c: seq<byte>, n: nat, k: nat)
    requires EmptyAt(c, n) && InMemory(c)
    ensures GoesOn(c, Nth(c, k))
    ensures k >= n ==> Nth(c, k) == Nth(c, n)
    decreases if k >= n then k - n else n - k
  {
    hide IsSpHdr, Val, LenAt;
    if k > n {
      Halts(c, n, k - 1);
      StandsStill(c, Nth(c, n));
    } else if k < n {
      Halts(c, n, k + 1);
    }
  }

  // ---------- The control buffer of recvmsg ----------

  // The SP_HDR property (global.c:963-972) but for the bytes up to the next aligned offset.
  function SpProperty(hdr: seq<byte>): seq<byte> {
    LE(Space(|hdr| + WORD), 8) + LE(PROTO_SP, 4) + LE(SP_HDR, 4) + LE(|hdr|, 8) + hdr
  }

  // A control buffer that starts with it; recvmsg leaves the padding as it found it.
  predicate StartsWith(c: seq<byte>, hdr: seq<byte>) {
    |c| >= Space(|hdr| + WORD) && |c| >= HEAD + WORD + |hdr|
    && c[..HEAD + WORD + |hdr|] == SpProperty(hdr)
  }

  lemma PropertyFields(c: seq<byte>, hdr: seq<byte>)
    requires StartsWith(c, hdr) && InMemory(c)
    ensures LenAt(c, 0) == Space(|hdr| + WORD) && IsSpHdr(c, 0)
    ensures Val(c[HEAD..HEAD + WORD]) == |hdr|
    ensures c[HEAD + WORD..HEAD + WORD + |hdr|] == hdr
  {
    hide LE, Val, Limit, Align, InMemory;
    Limits();
    Bounded(c, hdr);
    var p := SpProperty(hdr);
    assert p <= c[0..];
    Slice(c, 0, p, 0, 8);
    assert p[0..8] == LE(Space(|hdr| + WORD), 8);
    ValLE(Space(|hdr| + WORD), 8);
    Slice(c, 0, p, 8, 12);
    assert p[8..12] == LE(PROTO_SP, 4);
    ValLE(PROTO_SP, 4);
    Slice(c, 0, p, 12, 16);
    assert p[12..16] == LE(SP_HDR, 4);
    ValLE(SP_HDR, 4);
    Slice(c, 0, p, 16, 24);
    assert p[16..24] == LE(|hdr|, 8);
    ValLE(|hdr|, 8);
    Slice(c, 0, p, HEAD + WORD, |p|);
    assert p[HEAD + WORD..|p|] == hdr;
  }

  lemma Bounded(c: seq<byte>, hdr: seq<byte>)
    requires StartsWith(c, hdr) && InMemory(c)
    ensures Space(|hdr| + WORD) < WRAP && |hdr| < WRAP
    ensures PROTO_SP < 0x1_0000_0000 && SP_HDR < 0x1_0000_0000
  {
  }

  /** For an SP header of any length and whatever follows it in the buffer, sendmsg finds
      the header that recvmsg put there. */
  lemma HeaderRoundTrip(c: seq<byte>, hdr: seq<byte>)
    requires StartsWith(c, hdr) && InMemory(c)
    ensures HeaderOf(c) == Some(hdr)
  {
    hide LE, Val, Limit, SpProperty, IsSpHdr, Align;
    PropertyFields(c, hdr);
    AlignBounds(|hdr| + WORD);
    AlignBounds(Align(|hdr| + WORD));
    AlignBounds(0);
    assert Probe(c, 0) == Here;
    assert Find(c, 0, Offsets(c)) == Found(0);
  }

  // What recvmsg makes of the control buffer (global.c:942-981): the SP header and as many
  // of the other properties as there is room for, or nothing at all.
  function Controlled(c: seq<byte>, hdr: seq<byte>, hdrs: seq<byte>): (r: seq<byte>)
    requires |hdr| + 2 * HEAD + WORD <= WRAP
  {
    AlignBounds(|hdr| + WORD);
    var sptotalsz := Space(|hdr| + WORD);
    if |c| < sptotalsz then c
    else
      var room := |c| - sptotalsz;
      var n := if |hdrs| > room then room else |hdrs|;
      SpProperty(hdr) + c[HEAD + WORD + |hdr|..sptotalsz] + hdrs[..n] + c[sptotalsz + n..]
  }

  lemma PropertyLength(hdr: seq<byte>)
    ensures |SpProperty(hdr)| == HEAD + WORD + |hdr|
  {
  }

  /** Filling in the control buffer; sendmsg gets the same SP header back out of it. */
  method FillControl(ctrl: array<byte>, hdr: seq<byte>, hdrs: seq<byte>)
    requires InMemory(ctrl[..]) && |hdr| + 2 * HEAD + WORD <= WRAP
    modifies ctrl
    ensures ctrl[..] == Controlled(old(ctrl[..]), hdr, hdrs)
  {
    hide LE, Align, SpProperty;
    AlignBounds(|hdr| + WORD);
    PropertyLength(hdr);
    var sptotalsz := Space(|hdr| + WORD);
    if ctrl.Length >= sptotalsz {
      FillHead(ctrl, sptotalsz, hdr);
      var hdrssz := |hdrs|;
      if hdrssz > ctrl.Length - sptotalsz { hdrssz := ctrl.Length - sptotalsz; }
      ghost var c := ctrl[..];
      Copy(ctrl, sptotalsz, hdrs[..hdrssz]);
      PutTogether(old(ctrl[..]), SpProperty(hdr), c, ctrl[..], sptotalsz, hdrs[..hdrssz]);
    }
  }

  // A head h and, from s on, the bytes x written over what was in a buffer.
  lemma PutTogether(was: seq<byte>, h: seq<byte>, c: seq<byte>, r: seq<byte>, s: nat, x: seq<byte>)
    requires |h| <= s && s + |x| <= |was| == |c| == |r|
    requires c == h + was[|h|..]
    requires r[..s + |x|] == c[..s] + x && r[s + |x|..] == c[s + |x|..]
    ensures r == h + was[|h|..s] + x + was[s + |x|..]
  {
    assert r == r[..s + |x|] + r[s + |x|..];
    assert c[..s] == h + was[|h|..s];
    assert c[s + |x|..] == was[s + |x|..];
  }

  // The SP_HDR property.
  method FillHead(ctrl: array<byte>, sptotalsz: nat, hdr: seq<byte>)
    requires sptotalsz == Space(|hdr| + WORD)
    requires HEAD + WORD + |hdr| <= ctrl.Length
    modifies ctrl
    ensures ctrl[..] == SpProperty(hdr) + old(ctrl[HEAD + WORD + |hdr|..])
  {
    hide LE, Align;
    ghost var c := ctrl[..];
    Copy(ctrl, 0, LE(sptotalsz, 8));
    assert ctrl[8..] == c[8..];
    Copy(ctrl, 8, LE(PROTO_SP, 4));
    assert ctrl[12..] == c[12..];
    Copy(ctrl, 12, LE(SP_HDR, 4));
    assert ctrl[HEAD..] == c[HEAD..];
    Copy(ctrl, HEAD, LE(|hdr|, 8));
    assert ctrl[HEAD + WORD..] == c[HEAD + WORD..];
    Copy(ctrl, HEAD + WORD, hdr);
    assert ctrl[..HEAD + WORD + |hdr|] == SpProperty(hdr);
    assert ctrl[HEAD + WORD + |hdr|..] == c[HEAD + WORD + |hdr|..];
    assert ctrl[..] == ctrl[..HEAD + WORD + |hdr|] + ctrl[HEAD + WORD + |hdr|..];
  }

  /** What the application gets with a message, it can send the next one with: in any
      buffer with room for it, sendmsg finds the SP header that recvmsg filled in. */
  lemma ControlledCarries(c: seq<byte>, hdr: seq<byte>, hdrs: seq<byte>)
    requires InMemory(c) && |hdr| + 2 * HEAD + WORD <= WRAP
    ensures |Controlled(c, hdr, hdrs)| == |c|
    ensures |c| >= Space(|hdr| + WORD) ==> HeaderOf(Controlled(c, hdr, hdrs)) == Some(hdr)
  {
    hide LE, Val, Limit, Align, Find, HeaderAt;
    AlignBounds(|hdr| + WORD);
    if |c| >= Space(|hdr| + WORD) {
      var r := Controlled(c, hdr, hdrs);
      assert |SpProperty(hdr)| == HEAD + WORD + |hdr|;
      assert r[..HEAD + WORD + |hdr|] == SpProperty(hdr);
      HeaderRoundTrip(r, hdr);
    }
  }

  /** The search of sendmsg (global.c:818-837).  None is where the source reads outside the
      buffer or goes round forever; `seen` is there to tell. */
  method TakeHeader(ctrl: array<byte>) returns (hdr: Option<seq<byte>>)
    ensures hdr == HeaderOf(ctrl[..])
  {
    hide Val, Align, IsSpHdr;
    var cmsg := 0;
    var seen: set<nat> := {};
    assert Offsets(ctrl[..]) - seen == Offsets(ctrl[..]);
    while Probe(ctrl[..], cmsg) == Here
      invariant FindSpHdr(ctrl[..]) == Find(ctrl[..], cmsg, Offsets(ctrl[..]) - seen)
      decreases Offsets(ctrl[..]) - seen
    {
      if IsSpHdr(ctrl[..], cmsg) { return HeaderAt(ctrl[..], cmsg); }
      if cmsg in seen { return None; }
      assert IsOffset(ctrl[..], cmsg);
      assert Offsets(ctrl[..]) - seen - {cmsg} == Offsets(ctrl[..]) - (seen + {cmsg});
      seen := seen + {cmsg};
      cmsg := After(ctrl[..], cmsg);
    }
    return if Probe(ctrl[..], cmsg) == End then Some([]) else None;
  }

  // ---------- The walk over a list of properties ----------

  // grid_cmsg_nxthdr_ as an application calls it, whatever properties it comes by.
  function Move(c: seq<byte>): nat -> Option<nat> {
    o => if Probe(c, o) == Here then Some(After(c, o)) else None
  }

  function Visit(c: seq<byte>, n: nat): nat { Iterate(Move(c), n) }

  /** Over any buffer the walk goes on forever exactly when it comes back to an offset. */
  lemma WalkCycleExact(c: seq<byte>)
    ensures Endless(Move(c)) <==> exists m: nat, n: nat :: Cycle(Move(c), m, n)
    ensures Endless(Move(c)) <==> forall n: nat :: Probe(c, Visit(c, n)) == Here
  {
    hide After, Cycle;
    EndlessExact(c, Move(c));
    if Endless(Move(c)) {
      forall n: nat ensures Probe(c, Visit(c, n)) == Here { assert Move(c)(Iterate(Move(c), n)).Some?; }
    }
    if forall n: nat :: Probe(c, Visit(c, n)) == Here {
      forall n: nat ensures Move(c)(Iterate(Move(c), n)).Some? { assert Probe(c, Visit(c, n)) == Here; }
    }
  }

  type int32 = n: nat | n < 0x1_0000_0000

  datatype Property = Property(level: int32, kind: int32, data: seq<byte>)

  // A property as the macros of RFC 3542, section 20.3, lay it out: the length counts the
  // head and the data, and the data are padded to an aligned length.
  function Encode(p: Property): seq<byte> {
    LE(HEAD + |p.data|, 8) + LE(p.level, 4) + LE(p.kind, 4) + p.data
    + seq(if Align(|p.data|) < |p.data| then 0 else Align(|p.data|) - |p.data|, _ => 0)
  }

  function EncodeAll(ps: seq<Property>): seq<byte> {
    if ps == [] then [] else Encode(ps[0]) + EncodeAll(ps[1..])
  }

  // Where the property number k of a list begins, and where the list ends.
  function StartOf(ps: seq<Property>, k: nat): nat
    requires k <= |ps|
  {
    if k == 0 then 0 else StartOf(ps, k - 1) + |Encode(ps[k - 1])|
  }

  lemma EncodeLength(p: Property)
    requires |p.data| + 2 * HEAD <= WRAP
    ensures |Encode(p)| == HEAD + Align(|p.data|) == Align(HEAD + |p.data|)
  {
    AlignBounds(|p.data|);
  }

  // One is the other, cut off.
  predicate Agree(a: seq<byte>, b: seq<byte>) { a <= b || b <= a }

  // The property at an offset is the encoding of p.
  predicate Holds(c: seq<byte>, o: nat, p: Property) { o <= |c| && Encode(p) <= c[o..] }

  lemma {:induction false} StartSplit(ps: seq<Property>, k: nat)
    requires 0 < |ps| && k <= |ps|
    ensures k > 0 ==> StartOf(ps, k) == |Encode(ps[0])| + StartOf(ps[1..], k - 1)
  {
    if k > 1 { StartSplit(ps, k - 1); }
  }

  lemma {:induction false} ListFrom(ps: seq<Property>, k: nat)
    requires k <= |ps|
    ensures StartOf(ps, k) <= |EncodeAll(ps)|
    ensures EncodeAll(ps)[StartOf(ps, k)..] == EncodeAll(ps[k..])
  {
    hide Encode;
    if k > 0 {
      StartSplit(ps, k);
      ListFrom(ps[1..], k - 1);
      assert ps[1..][k - 1..] == ps[k..];
    } else {
      assert ps[0..] == ps;
    }
  }

  lemma ListEnd(ps: seq<Property>)
    ensures StartOf(ps, |ps|) == |EncodeAll(ps)|
  {
    ListFrom(ps, |ps|);
    assert ps[|ps|..] == [];
  }

  lemma AgreeFrom(a: seq<byte>, b: seq<byte>, o: nat)
    requires Agree(a, b) && o <= |a| && o <= |b|
    ensures Agree(a[o..], b[o..])
  {
    if a <= b { assert a[o..] == b[o..][..|a| - o]; } else { assert b[o..] == a[o..][..|b| - o]; }
  }

  // What the buffer has at the start of a property of the list.
  lemma AgreeAt(c: seq<byte>, ps: seq<Property>, k: nat)
    requires Agree(c, EncodeAll(ps)) && k < |ps| && StartOf(ps, k) <= |c|
    ensures Agree(c[StartOf(ps, k)..], Encode(ps[k]))
  {
    hide Encode, StartOf;
    ListFrom(ps, k);
    AgreeFrom(c, EncodeAll(ps), StartOf(ps, k));
    assert EncodeAll(ps[k..]) == Encode(ps[k]) + EncodeAll(ps[k..][1..]);
  }

  lemma Slice(c: seq<byte>, o: nat, e: seq<byte>, a: nat, b: nat)
    requires o <= |c| && Agree(c[o..], e) && a <= b <= |e| && o + b <= |c|
    ensures c[o + a..o + b] == e[a..b]
  {
    forall k | a <= k < b ensures c[o + k] == e[k] {
      assert c[o..][k] == e[k];
    }
  }

  // The fields of a property whose head is in the buffer.
  lemma FieldsOf(c: seq<byte>, o: nat, p: Property)
    requires HEAD + |p.data| < WRAP && o + HEAD <= |c| && Agree(c[o..], Encode(p))
    ensures LenAt(c, o) == HEAD + |p.data|
    ensures IsSpHdr(c, o) <==> p.level == PROTO_SP && p.kind == SP_HDR
  {
    hide LE, Val, Limit, Align, Agree;
    Limits();
    var e := Encode(p);
    Slice(c, o, e, 0, 8);
    assert e[0..8] == LE(HEAD + |p.data|, 8);
    ValLE(HEAD + |p.data|, 8);
    Slice(c, o, e, 8, 12);
    assert e[8..12] == LE(p.level, 4);
    ValLE(p.level, 4);
    Slice(c, o, e, 12, 16);
    assert e[12..16] == LE(p.kind, 4);
    ValLE(p.kind, 4);
  }

  // The walk visits a property that is all there and goes on behind it; it ends at one that
  // was cut off.
  lemma StepOver(c: seq<byte>, o: nat, p: Property)
    requires InMemory(c) && o <= |c| && Agree(c[o..], Encode(p)) && Small(p)
    ensures if o + |Encode(p)| <= |c| then Holds(c, o, p) && Probe(c, o) == Here && After(c, o) == o + |Encode(p)|
            else Probe(c, o) == End
  {
    hide LE, Val, Limit, Align, LenAt, IsSpHdr, Encode;
    SpaceIs();
    EncodeLength(p);
    AlignBounds(HEAD + |p.data|);
    if o + HEAD <= |c| { FieldsOf(c, o, p); }
    if o + |Encode(p)| <= |c| { assert Encode(p) <= c[o..]; }
  }

  predicate Small(p: Property) { 2 * |p.data| + 4 * HEAD <= WRAP }

  // Each property of a list in memory is small.
  lemma {:induction false} DataSize(ps: seq<Property>, k: nat)
    requires k < |ps| && InMemory(EncodeAll(ps))
    ensures Small(ps[k])
  {
    hide EncodeAll, Align, StartOf;
    ListFrom(ps, k);
    ListSplit(ps[k..]);
    assert ps[k..][0] == ps[k];
  }

  lemma ListSplit(ps: seq<Property>)
    requires ps != []
    ensures EncodeAll(ps) == Encode(ps[0]) + EncodeAll(ps[1..])
  {
  }

  lemma {:induction false} StartBefore(ps: seq<Property>, k: nat, n: nat)
    requires k <= n <= |ps|
    ensures StartOf(ps, k) <= StartOf(ps, n)
  {
    if k < n { StartBefore(ps, k, n - 1); }
  }

  /** A buffer that holds a list, perhaps cut off or with more behind it: the walk visits
      each property that is all there, in order, and ends at the first that is not. */
  lemma {:induction false} WalkOver(c: seq<byte>, ps: seq<Property>, k: nat)
    requires InMemory(c) && Agree(c, EncodeAll(ps)) && forall p :: p in ps ==> Small(p)
    requires k <= |ps| && StartOf(ps, k) <= |c|
    ensures Visit(c, k) == StartOf(ps, k)
    ensures k < |ps| ==>
      if StartOf(ps, k + 1) <= |c| then Holds(c, Visit(c, k), ps[k]) && Probe(c, Visit(c, k)) == Here
      else Probe(c, Visit(c, k)) == End
    ensures k == |ps| && |c| < StartOf(ps, k) + HEAD ==> Probe(c, Visit(c, k)) == End
  {
    hide After, Holds, Encode, EncodeAll, InMemory, Agree, Probe;
    if k > 0 {
      StartBefore(ps, k - 1, k);
      WalkOver(c, ps, k - 1);
      AgreeAt(c, ps, k - 1);
      StepOver(c, Visit(c, k - 1), ps[k - 1]);
    }
    if k < |ps| {
      AgreeAt(c, ps, k);
      StepOver(c, Visit(c, k), ps[k]);
    } else if |c| < StartOf(ps, k) + HEAD {
      Ended(c, Visit(c, k));
    }
  }

  lemma Ended(c: seq<byte>, o: nat)
    requires InMemory(c) && o <= |c| < o + HEAD
    ensures Probe(c, o) == End
  {
    SpaceIs();
  }

  lemma SmallEach(ps: seq<Property>)
    requires InMemory(EncodeAll(ps))
    ensures forall p :: p in ps ==> Small(p)
  {
    hide EncodeAll, InMemory;
    forall p | p in ps ensures Small(p) {
      var k :| 0 <= k < |ps| && ps[k] == p;
      DataSize(ps, k);
    }
  }

  /** Over any list of properties the walk visits each of them once, in order, and ends
      behind the last. */
  lemma WalkVisitsAll(ps: seq<Property>, k: nat)
    requires InMemory(EncodeAll(ps)) && k <= |ps|
    ensures var c := EncodeAll(ps);
      && Visit(c, k) == StartOf(ps, k)
      && (if k < |ps| then Probe(c, Visit(c, k)) == Here && Holds(c, Visit(c, k), ps[k])
          else Probe(c, Visit(c, k)) == End)
  {
    hide Probe, Holds, EncodeAll, InMemory, StartOf;
    SmallEach(ps);
    ListEnd(ps);
    StartBefore(ps, k, |ps|);
    if k < |ps| { StartBefore(ps, k + 1, |ps|); }
    WalkOver(EncodeAll(ps), ps, k);
  }

  // ---------- The walk over a received message ----------

  // The SP_HDR property that recvmsg makes; its length counts the padding, too.
  function Received(c: seq<byte>, hdr: seq<byte>): Property
    requires HEAD + WORD + |hdr| <= Space(|hdr| + WORD) <= |c|
  {
    Property(PROTO_SP, SP_HDR, LE(|hdr|, 8) + hdr + c[HEAD + WORD + |hdr|..Space(|hdr| + WORD)])
  }

  lemma ReceivedLength(c: seq<byte>, hdr: seq<byte>)
    requires InMemory(c) && |hdr| + 2 * HEAD + WORD <= WRAP && |c| >= Space(|hdr| + WORD)
    ensures HEAD + WORD + |hdr| <= Space(|hdr| + WORD) < WRAP - HEAD
    ensures var data := Received(c, hdr).data; HEAD + |data| == Space(|hdr| + WORD) && Align(|data|) == |data|
  {
    hide LE;
    AlignBounds(|hdr| + WORD);
    AlignBounds(Align(|hdr| + WORD));
  }

  lemma ReceivedEncoded(c: seq<byte>, hdr: seq<byte>)
    requires InMemory(c) && |hdr| + 2 * HEAD + WORD <= WRAP && |c| >= Space(|hdr| + WORD)
    ensures HEAD + WORD + |hdr| <= Space(|hdr| + WORD)
    ensures Encode(Received(c, hdr)) == SpProperty(hdr) + c[HEAD + WORD + |hdr|..Space(|hdr| + WORD)]
    ensures |Encode(Received(c, hdr))| == Space(|hdr| + WORD)
  {
    hide LE, Align, Space, InMemory;
    ReceivedLength(c, hdr);
  }

  // The buffer of recvmsg is the list with that property in front, cut off or with what was
  // there before behind it.
  lemma ReceivedIs(c: seq<byte>, hdr: seq<byte>, hdrs: seq<byte>)
    requires InMemory(c) && |hdr| + 2 * HEAD + WORD <= WRAP && |c| >= Space(|hdr| + WORD)
    ensures HEAD + WORD + |hdr| <= Space(|hdr| + WORD)
    ensures var e := Encode(Received(c, hdr)); var r := Controlled(c, hdr, hdrs);
      && |e| == Space(|hdr| + WORD) && Agree(r, e + hdrs) && |r| == |c|
      && (|e| + |hdrs| <= |c| ==> r == e + hdrs + c[|e| + |hdrs|..])
  {
    hide SpProperty, Align, Space, InMemory, Encode, Received, LE, Agree, Controlled;
    ReceivedEncoded(c, hdr);
    var e := Encode(Received(c, hdr));
    var room := |c| - |e|;
    var n := if |hdrs| > room then room else |hdrs|;
    ControlledIs(c, hdr, hdrs, n);
    CutOff(e, hdrs, c, n);
  }

  lemma ControlledIs(c: seq<byte>, hdr: seq<byte>, hdrs: seq<byte>, n: nat)
    requires |hdr| + 2 * HEAD + WORD <= WRAP && HEAD + WORD + |hdr| <= Space(|hdr| + WORD) <= |c|
    requires n == if |hdrs| > |c| - Space(|hdr| + WORD) then |c| - Space(|hdr| + WORD) else |hdrs|
    ensures var total := Space(|hdr| + WORD);
      Controlled(c, hdr, hdrs) == SpProperty(hdr) + c[HEAD + WORD + |hdr|..total] + hdrs[..n] + c[total + n..]
  {
    hide SpProperty, Align, LE;
  }

  lemma CutOff(e: seq<byte>, hdrs: seq<byte>, c: seq<byte>, n: nat)
    requires |e| <= |c| && n == if |hdrs| > |c| - |e| then |c| - |e| else |hdrs|
    ensures var r := e + hdrs[..n] + c[|e| + n..];
      Agree(r, e + hdrs) && |r| == |c| && (n == |hdrs| ==> r == e + hdrs + c[|e| + n..])
  {
    var r := e + hdrs[..n] + c[|e| + n..];
    if n == |hdrs| {
      assert hdrs[..n] == hdrs;
      assert e + hdrs <= r;
    } else {
      assert c[|e| + n..] == [];
      assert r == (e + hdrs)[..|c|];
    }
  }

  /** What an application gets with a message that was sent with any list of properties: the
      SP header first and then, in order, each of them that there is room for. */
  lemma WalkReceived(c: seq<byte>, hdr: seq<byte>, ps: seq<Property>, k: nat)
    requires InMemory(c) && InMemory(EncodeAll(ps))
    requires HEAD + WORD + |hdr| <= Space(|hdr| + WORD) <= |c|
    requires var qs := [Received(c, hdr)] + ps; k <= |qs| && StartOf(qs, k) <= |c|
    ensures var qs := [Received(c, hdr)] + ps; var r := Controlled(c, hdr, EncodeAll(ps));
      && Visit(r, k) == StartOf(qs, k)
      && (k < |qs| ==>
            if StartOf(qs, k + 1) <= |c| then Holds(r, Visit(r, k), qs[k]) && Probe(r, Visit(r, k)) == Here
            else Probe(r, Visit(r, k)) == End)
      && (k == |qs| && |c| < StartOf(qs, k) + HEAD ==> Probe(r, Visit(r, k)) == End)
  {
    hide Probe, Holds, Encode, StartOf, Controlled, Agree, Align;
    var qs := ReceivedList(c, hdr, ps);
    WalkOver(Controlled(c, hdr, EncodeAll(ps)), qs, k);
  }

  lemma ReceivedList(c: seq<byte>, hdr: seq<byte>, ps: seq<Property>) returns (qs: seq<Property>)
    requires InMemory(c) && InMemory(EncodeAll(ps))
    requires HEAD + WORD + |hdr| <= Space(|hdr| + WORD) <= |c|
    ensures qs == [Received(c, hdr)] + ps && forall p :: p in qs ==> Small(p)
    ensures StartOf(qs, |qs|) == Space(|hdr| + WORD) + |EncodeAll(ps)|
    ensures var r := Controlled(c, hdr, EncodeAll(ps));
      InMemory(r) && |r| == |c| && Agree(r, EncodeAll(qs))
  {
    hide Encode, Controlled, Agree, LE, Align;
    qs := [Received(c, hdr)] + ps;
    ReceivedIs(c, hdr, EncodeAll(ps));
    SmallEach(ps);
    assert qs[1..] == ps;
    assert EncodeAll(qs) == Encode(qs[0]) + EncodeAll(ps);
    ListEnd(qs);
  }

  predicate AllZero(c: seq<byte>) { forall i :: 0 <= i < |c| ==> c[i] == 0 }

  /** When a buffer of zeros is longer than what recvmsg puts into it, the walk goes on
      forever exactly when a head or more is left over: recvmsg does not say where the list ends. */
  lemma LeftoverExact(c: seq<byte>, hdr: seq<byte>, ps: seq<Property>)
    requires AllZero(c) && InMemory(c) && InMemory(EncodeAll(ps))
    requires HEAD + WORD + |hdr| <= Space(|hdr| + WORD)
    requires Space(|hdr| + WORD) + |EncodeAll(ps)| <= |c|
    ensures Endless(Move(Controlled(c, hdr, EncodeAll(ps)))) <==>
      Space(|hdr| + WORD) + |EncodeAll(ps)| + HEAD <= |c|
  {
    hide AllZero, Probe, Holds, Encode, StartOf, Controlled, Agree, Align, Received, Endless, Visit;
    var qs := ReceivedList(c, hdr, ps);
    var r := Controlled(c, hdr, EncodeAll(ps));
    WalkCycleExact(r);
    WalkReceived(c, hdr, ps, |qs|);
    if StartOf(qs, |qs|) + HEAD <= |c| {
      ZerosBehind(c, hdr, ps);
      forall m: nat ensures Probe(r, Visit(r, m)) == Here {
        if m < |qs| {
          StartBefore(qs, m, |qs|);
          StartBefore(qs, m + 1, |qs|);
          WalkReceived(c, hdr, ps, m);
        } else {
          VisitsStay(r, |qs|, m);
        }
      }
    }
  }

  // There the walk stands still.
  lemma ZerosBehind(c: seq<byte>, hdr: seq<byte>, ps: seq<Property>)
    requires AllZero(c) && InMemory(c) && InMemory(EncodeAll(ps))
    requires HEAD + WORD + |hdr| <= Space(|hdr| + WORD)
    requires Space(|hdr| + WORD) + |EncodeAll(ps)| + HEAD <= |c|
    ensures var o := Space(|hdr| + WORD) + |EncodeAll(ps)|; var r := Controlled(c, hdr, EncodeAll(ps));
      Probe(r, o) == Here && After(r, o) == o
  {
    hide Encode, Controlled, Agree, LE, Align, Val;
    ReceivedIs(c, hdr, EncodeAll(ps));
    var o := Space(|hdr| + WORD) + |EncodeAll(ps)|;
    var r := Controlled(c, hdr, EncodeAll(ps));
    ZeroVal(r[o..o + 8]);
    SpaceIs();
    StandsStill(r, o);
  }

  lemma VisitsStay(c: seq<byte>, n: nat, m: nat)
    requires n <= m && Probe(c, Visit(c, n)) == Here && After(c, Visit(c, n)) == Visit(c, n)
    ensures Visit(c, m) == Visit(c, n)
  {
    hide Probe, After;
    StaysPut(Move(c), n, m);
  }

  lemma {:induction false} StaysPut(next: nat -> Option<nat>, n: nat, m: nat)
    requires n <= m && next(Iterate(next, n)) == Some(Iterate(next, n))
    ensures Iterate(next, m) == Iterate(next, n)
  {
    if m > n { StaysPut(next, n, m - 1); }
  }

  // ---------- The search over a list of properties ----------

  predicate IsSp(p: Property) { p.level == PROTO_SP && p.kind == SP_HDR }

  /** Given any list of properties, sendmsg finds the first SP_HDR property if there is one. */
  lemma SearchFindsFirst(ps: seq<Property>)
    requires InMemory(EncodeAll(ps))
    ensures match FindSpHdr(EncodeAll(ps))
      case Found(o) => exists k: nat :: k < |ps| && o == StartOf(ps, k) && FirstSp(ps, k)
      case Absent => forall p :: p in ps ==> !IsSp(p)
      case _ => false
  {
    hide InMemory, EncodeAll, StartOf;
    SmallEach(ps);
    StartZero(ps);
    SearchFrom(EncodeAll(ps), ps, 0, Offsets(EncodeAll(ps)));
  }

  lemma StartZero(ps: seq<Property>)
    ensures StartOf(ps, 0) == 0
  {
  }

  predicate FirstSp(ps: seq<Property>, k: nat) {
    k < |ps| && IsSp(ps[k]) && forall j :: 0 <= j < k ==> !IsSp(ps[j])
  }

  lemma {:induction false} SearchFrom(c: seq<byte>, ps: seq<Property>, k: nat, left: set<nat>)
    requires InMemory(c) && c == EncodeAll(ps) && forall p :: p in ps ==> Small(p)
    requires k <= |ps| && forall j :: 0 <= j < k ==> !IsSp(ps[j])
    requires forall o: nat :: IsOffset(c, o) && o >= StartOf(ps, k) ==> o in left
    ensures match Find(c, StartOf(ps, k), left)
      case Found(o) => exists j: nat :: j < |ps| && o == StartOf(ps, j) && FirstSp(ps, j)
      case Absent => forall p :: p in ps ==> !IsSp(p)
      case _ => false
    decreases |ps| - k
  {
    hide Probe, After, Encode, EncodeAll, InMemory, Agree, IsSpHdr, Holds;
    ListEnd(ps);
    StartBefore(ps, k, |ps|);
    var o := StartOf(ps, k);
    if k == |ps| {
      Ended(c, o);
    } else {
      StartBefore(ps, k + 1, |ps|);
      SelfAgrees(c);
      AgreeAt(c, ps, k);
      StepOver(c, o, ps[k]);
      HeadFields(c, o, ps[k]);
      if IsSp(ps[k]) {
        assert FirstSp(ps, k);
      } else {
        assert IsOffset(c, o);
        SearchFrom(c, ps, k + 1, left - {o});
      }
    }
  }

  lemma SelfAgrees(c: seq<byte>)
    ensures Agree(c, c)
  {
  }

  lemma HeadFields(c: seq<byte>, o: nat, p: Property)
    requires Small(p) && o + |Encode(p)| <= |c| && Agree(c[o..], Encode(p))
    ensures o + HEAD <= |c| && |Encode(p)| >= HEAD && (IsSpHdr(c, o) <==> IsSp(p))
  {
    hide Align, Agree, IsSpHdr;
    FieldsOf(c, o, p);
  }
}

/** A chunk and all references to it (src/utils/chunk.c, src/utils/chunkref.c) over every run of
    copies, bulk copies, moves, trims and terminations, against inline messages, which share
    nothing. */
module ChunkRuns {
  import opened Bytes
  import opened Wire
  import opened Chunk

  // The references by name, each with its data pointer; `promised` are the copies that
  // grid_chunkref_bulkcopy_start has counted and that were not made yet.
  datatype State = State(mem: seq<byte>, size: nat, count: int, freed: bool, live: map<nat, nat>, promised: nat)

  datatype Step =
    | Copy(from: nat, to: nat)                 // grid_chunkref_cp
    | BulkStart(from: nat, n: nat)             // grid_chunkref_bulkcopy_start
    | BulkCopy(from: nat, to: nat)             // grid_chunkref_bulkcopy_cp
    | Move(from: nat, to: nat)                 // grid_chunkref_mv; the source is dead
    | Trim(from: nat, n: nat)                  // grid_chunkref_trim
    | Term(from: nat)                          // grid_chunkref_term

  // A chunk with its first reference.
  function Init(content: seq<byte>): State {
    State(PutL(0) + PutL(TAG) + content, |content|, 1, false, map[0 := HEAD], 0)
  }

  // References point into the chunk.
  predicate Inside(s: State) {
    forall r :: r in s.live ==> HEAD <= s.live[r] && s.live[r] + s.size <= |s.mem|
  }

  // Callers use references that are there, overwrite none, and make no more bulk copies
  // than they asked for.
  predicate CanStep(s: State, step: Step) {
    step.from in s.live &&
    match step
    case Copy(_, to) => to !in s.live
    case BulkCopy(_, to) => to !in s.live && s.promised > 0
    case Move(_, to) => to !in s.live
    case _ => true
  }

  // What the source does to the chunk; None is a failed assertion.
  function Apply(s: State, step: Step): (t: Option<State>)
    requires Inside(s) && CanStep(s, step)
    ensures t.Some? ==> Inside(t.value)
  {
    var p := s.live[step.from];
    match step
    case BulkCopy(_, to) => Some(s.(live := s.live[to := p], promised := s.promised - 1))
    case Move(from, to) => Some(s.(live := (s.live - {from})[to := p]))
    case Copy(_, to) =>
      if !Recoverable(s.mem, p) then None
      else Some(s.(count := s.count + 1, live := s.live[to := p]))
    case BulkStart(_, n) =>
      if !Recoverable(s.mem, p) then None
      else Some(s.(count := s.count + n, promised := s.promised + n))
    case Trim(from, n) =>
      if !Recoverable(s.mem, p) || n > s.size || p + n - HEAD >= 0xffff_ffff then None
      else Some(s.(mem := Tagged(s.mem, p + n), size := s.size - n, live := s.live[from := p + n]))
    case Term(from) =>
      if !Recoverable(s.mem, p) then None
      else if s.count > 1 then Some(s.(count := s.count - 1, live := s.live - {from}))
      else Some(s.(count := s.count - 1, live := s.live - {from}, freed := true,
                   mem := s.mem[..p - 4] + PutL(DEALLOCATED) + s.mem[p..]))
  }

  // ---------- The count ----------

  // As many as there are references and promised copies; freed when there are none.
  predicate Counted(s: State) {
    s.count == |s.live| + s.promised && (s.freed <==> s.count == 0)
  }

  lemma AddSize(m: map<nat, nat>, r: nat, p: nat)
    requires r !in m
    ensures |m[r := p]| == |m| + 1
  {
    assert m[r := p].Keys == m.Keys + {r};
  }

  lemma RemoveSize(m: map<nat, nat>, r: nat)
    requires r in m
    ensures |m - {r}| == |m| - 1
  {
    assert (m - {r}).Keys == m.Keys - {r};
  }

  lemma StepCounted(s: State, step: Step)
    requires Inside(s) && Counted(s) && CanStep(s, step)
    ensures Apply(s, step).Some? ==> Counted(Apply(s, step).value)
  {
    hide Recoverable, Tagged, PutL;
    var p := s.live[step.from];
    RemoveSize(s.live, step.from);
    match step
    case Copy(_, to) => AddSize(s.live, to, p);
    case BulkCopy(_, to) => AddSize(s.live, to, p);
    case Move(from, to) => AddSize(s.live - {from}, to, p);
    case Trim(from, n) => assert s.live[from := p + n].Keys == s.live.Keys;
    case _ =>
  }

  /** A step through a reference that does not lead to the header aborts, unless it needs no
      header; every other one makes and ends the references it names and no others, and
      promises copies and keeps such promises.  What was freed is not found again. */
  lemma StepReferences(s: State, step: Step)
    requires Inside(s) && CanStep(s, step)
    ensures !Recoverable(s.mem, s.live[step.from]) && !step.Move? && !step.BulkCopy? ==> Apply(s, step) == None
    ensures Apply(s, step).Some? ==>
      var t := Apply(s, step).value; var p := s.live[step.from];
      && (forall r :: r in t.live <==>
            || (r in s.live && !(r == step.from && (step.Move? || step.Term?)))
            || ((step.Copy? || step.BulkCopy? || step.Move?) && r == step.to))
      && (forall r :: r in t.live ==>
            t.live[r] == if r in s.live then (if step.Trim? && r == step.from then p + step.n else s.live[r]) else p)
      && t.promised == s.promised + (if step.BulkStart? then step.n else if step.BulkCopy? then -1 else 0)
      && (step.Term? && s.count <= 1 ==> t.freed && !Recoverable(t.mem, p))
  {
    hide PutL, GetL, Tagged;
    var p := s.live[step.from];
    if step.Term? && Recoverable(s.mem, p) {
      NotFound(s.mem[..p - 4] + PutL(DEALLOCATED) + s.mem[p..], s.mem, p);
    }
  }

  // ---------- Runs ----------

  predicate CanRun(s: State, steps: seq<Step>)
    requires Inside(s)
    decreases |steps|
  {
    steps == [] ||
    (&& CanStep(s, steps[0])
     && (Apply(s, steps[0]).Some? ==> CanRun(Apply(s, steps[0]).value, steps[1..])))
  }

  function Run(s: State, steps: seq<Step>): Option<State>
    requires Inside(s) && CanRun(s, steps)
    decreases |steps|
  {
    if steps == [] then Some(s)
    else
      var t :- Apply(s, steps[0]);
      Run(t, steps[1..])
  }

  lemma {:induction false} RunKeepsCount(s: State, steps: seq<Step>)
    requires Inside(s) && Counted(s) && CanRun(s, steps)
    ensures Run(s, steps).Some? ==> Counted(Run(s, steps).value)
    decreases |steps|
  {
    hide Counted, Apply;
    if steps != [] {
      StepCounted(s, steps[0]);
      if Apply(s, steps[0]).Some? { RunKeepsCount(Apply(s, steps[0]).value, steps[1..]); }
    }
  }

  /** After every run from a new chunk the count is that of the references and of the copies
      still promised, and the chunk has been freed exactly when there are none. */
  lemma RunCounted(content: seq<byte>, steps: seq<Step>)
    requires Inside(Init(content)) && CanRun(Init(content), steps)
    ensures match Run(Init(content), steps)
      case None => true
      case Some(s) =>
        && s.count == |s.live| + s.promised
        && (s.freed <==> s.live == map[] && s.promised == 0)
  {
    assert map[0 := HEAD].Keys == {0};
    RunKeepsCount(Init(content), steps);
  }

  // ---------- Messages ----------

  // What the references would show if each had its own bytes, as inline ones do.
  function ApplyInline(m: map<nat, seq<byte>>, step: Step): map<nat, seq<byte>>
    requires step.from in m
  {
    var b := m[step.from];
    match step
    case Copy(_, to) => m[to := b]
    case BulkStart(_, _) => m
    case BulkCopy(_, to) => m[to := b]
    case Move(from, to) => (m - {from})[to := b]
    case Trim(from, n) => m[from := if n > |b| then [] else b[n..]]
    case Term(from) => m - {from}
  }

  // Every reference leads to the header and shows the message it should.
  predicate Faithful(s: State, m: map<nat, seq<byte>>) {
    && Inside(s) && m.Keys == s.live.Keys
    && forall r {:trigger Shows(s.mem, s.live[r], s.size, m[r])} ::
         r in s.live ==> Shows(s.mem, s.live[r], s.size, m[r])
  }

  predicate Shows(mem: seq<byte>, p: nat, size: nat, bytes: seq<byte>) {
    Recoverable(mem, p) && p + size <= |mem| && mem[p..p + size] == bytes
  }

  // A trim is in range and takes nothing off, or nobody else refers to the chunk.
  predicate Careful(s: State, step: Step)
    requires step.from in s.live
  {
    step.Trim? ==>
      && step.n <= s.size && s.live[step.from] + step.n - HEAD < 0xffff_ffff
      && (step.n == 0 || s.live.Keys == {step.from})
  }

  // Writing the tag where it is.
  lemma TaggedAgain(mem: seq<byte>, p: nat)
    requires Recoverable(mem, p) && p - HEAD < 0x1_0000_0000
    ensures Tagged(mem, p) == mem
  {
    hide PutL, GetL;
    PutGet(mem[p - 8..]);
    PutGet(mem[p - 4..]);
    assert mem[p - 8..][..4] == mem[p - 8..p - 4] && mem[p - 4..][..4] == mem[p - 4..p];
    assert mem == mem[..p - 8] + mem[p - 8..p - 4] + mem[p - 4..p] + mem[p..];
  }

  lemma TrimmedShows(mem: seq<byte>, p: nat, size: nat, n: nat, bytes: seq<byte>)
    requires Shows(mem, p, size, bytes) && n <= size && p + n - HEAD < 0x1_0000_0000
    ensures Shows(Tagged(mem, p + n), p + n, size - n, bytes[n..])
  {
    hide Tagged, Recoverable;
    ShownInside(mem, p);
    TaggedRecovers(mem, p + n);
    SameTail(Tagged(mem, p + n), mem, p + n, p + size);
    assert mem[p..p + size][n..] == mem[p + n..p + size];
  }

  lemma ShownInside(mem: seq<byte>, p: nat)
    requires Recoverable(mem, p)
    ensures HEAD <= p <= |mem|
  {
  }

  // By the only reference.
  lemma TrimAlone(s: State, m: map<nat, seq<byte>>, r: nat, n: nat)
    requires Faithful(s, m) && s.live.Keys == {r}
    requires n <= s.size && s.live[r] + n - HEAD < 0xffff_ffff
    ensures var t := Apply(s, Trim(r, n)); t.Some? && Faithful(t.value, ApplyInline(m, Trim(r, n)))
  {
    hide Recoverable, Tagged, Shows;
    assert Shows(s.mem, s.live[r], s.size, m[r]);
    ShowsFits(s.mem, s.live[r], s.size, m[r]);
    TrimmedShows(s.mem, s.live[r], s.size, n, m[r]);
  }

  lemma ShowsFits(mem: seq<byte>, p: nat, size: nat, bytes: seq<byte>)
    requires Shows(mem, p, size, bytes)
    ensures Recoverable(mem, p) && HEAD <= p && p + size <= |mem| && |bytes| == size
  {
  }

  // By nothing.
  lemma TrimNone(s: State, m: map<nat, seq<byte>>, r: nat)
    requires Faithful(s, m) && r in s.live && s.live[r] - HEAD < 0xffff_ffff
    ensures Apply(s, Trim(r, 0)) == Some(s) && ApplyInline(m, Trim(r, 0)) == m
  {
    hide Recoverable, Tagged, Shows;
    assert Shows(s.mem, s.live[r], s.size, m[r]);
    ShowsFits(s.mem, s.live[r], s.size, m[r]);
    TaggedAgain(s.mem, s.live[r]);
    assert s.live[r := s.live[r]] == s.live;
    assert m[r][0..] == m[r] && m[r := m[r]] == m;
  }

  // By one of several: another one shows less.
  lemma TrimShared(s: State, m: map<nat, seq<byte>>, r: nat, n: nat, q: nat)
    requires Faithful(s, m) && r in s.live && q in s.live && q != r && n > 0
    ensures var t := Apply(s, Trim(r, n)); t.Some? ==> !Faithful(t.value, ApplyInline(m, Trim(r, n)))
  {
    hide Recoverable, Tagged, Shows;
    assert Shows(s.mem, s.live[q], s.size, m[q]);
    ShowsFits(s.mem, s.live[q], s.size, m[q]);
    var t := Apply(s, Trim(r, n));
    if t.Some? && Faithful(t.value, ApplyInline(m, Trim(r, n))) {
      assert Shows(t.value.mem, t.value.live[q], t.value.size, m[q]);
      ShowsFits(t.value.mem, t.value.live[q], t.value.size, m[q]);
    }
  }

  lemma TrimFaithful(s: State, m: map<nat, seq<byte>>, r: nat, n: nat)
    requires Faithful(s, m) && r in s.live
    ensures var t := Apply(s, Trim(r, n));
      (t.Some? && Faithful(t.value, ApplyInline(m, Trim(r, n)))) <==> Careful(s, Trim(r, n))
  {
    hide Recoverable, Tagged, Faithful, ApplyInline;
    if Careful(s, Trim(r, n)) {
      if n == 0 { TrimNone(s, m, r); } else { TrimAlone(s, m, r, n); }
    } else if n > 0 && s.live.Keys != {r} {
      var q :| q in s.live && q != r;
      TrimShared(s, m, r, n, q);
    }
  }

  lemma StepFaithful(s: State, m: map<nat, seq<byte>>, step: Step)
    requires Faithful(s, m) && Counted(s) && CanStep(s, step)
    ensures var t := Apply(s, step);
      (t.Some? && Faithful(t.value, ApplyInline(m, step))) <==> Careful(s, step)
  {
    hide Recoverable, Tagged, PutL;
    assert Shows(s.mem, s.live[step.from], s.size, m[step.from]);
    match step
    case Trim(r, n) => TrimFaithful(s, m, r, n);
    case Term(r) => LastOne(s, r);
    case _ =>
  }

  // The count falls to zero only with the last reference.
  lemma LastOne(s: State, r: nat)
    requires Counted(s) && r in s.live
    ensures s.count <= 1 ==> s.live - {r} == map[]
  {
    RemoveSize(s.live, r);
  }

  // Every state on the way is faithful.
  predicate StaysFaithful(s: State, m: map<nat, seq<byte>>, steps: seq<Step>)
    requires Inside(s) && CanRun(s, steps) && m.Keys == s.live.Keys
    decreases |steps|
  {
    && Faithful(s, m)
    && (steps == [] ||
        (&& Apply(s, steps[0]).Some?
         && ApplyInline(m, steps[0]).Keys == Apply(s, steps[0]).value.live.Keys
         && StaysFaithful(Apply(s, steps[0]).value, ApplyInline(m, steps[0]), steps[1..])))
  }

  predicate StaysCareful(s: State, steps: seq<Step>)
    requires Inside(s) && CanRun(s, steps)
    decreases |steps|
  {
    steps == [] ||
    (&& Careful(s, steps[0])
     && (Apply(s, steps[0]).Some? ==> StaysCareful(Apply(s, steps[0]).value, steps[1..])))
  }

  lemma {:induction false} FaithfulExact(s: State, m: map<nat, seq<byte>>, steps: seq<Step>)
    requires Faithful(s, m) && Counted(s) && CanRun(s, steps)
    ensures StaysFaithful(s, m, steps) <==> StaysCareful(s, steps)
    decreases |steps|
  {
    hide Apply, ApplyInline, Counted, Careful, Shows;
    if steps != [] {
      StepFaithful(s, m, steps[0]);
      StepCounted(s, steps[0]);
      if Careful(s, steps[0]) {
        FaithfulExact(Apply(s, steps[0]).value, ApplyInline(m, steps[0]), steps[1..]);
      }
    }
  }

  lemma InitFaithful(content: seq<byte>)
    ensures Faithful(Init(content), map[0 := content]) && Counted(Init(content))
  {
    hide PutL, GetL;
    GetPut(TAG, content);
    GetPut(0, PutL(TAG) + content);
    var mem := Init(content).mem;
    assert mem[4..] == PutL(TAG) + content;
    assert mem[0..] == PutL(0) + (PutL(TAG) + content);
    assert mem[HEAD..HEAD + |content|] == content;
    assert map[0 := HEAD].Keys == {0};
  }

  /** Over every run from a new chunk: all references find the header and show what inline
      ones would, in every state on the way, exactly when each trim that takes something off
      is by the only reference. */
  lemma RunFaithful(content: seq<byte>, steps: seq<Step>)
    requires Inside(Init(content)) && CanRun(Init(content), steps)
    ensures StaysFaithful(Init(content), map[0 := content], steps) <==> StaysCareful(Init(content), steps)
  {
    hide Init;
    InitFaithful(content);
    FaithfulExact(Init(content), map[0 := content], steps);
  }

  // ---------- What another reference shows ----------

  /** After a trim to p', another reference shows fewer bytes; those it shows are the first of
      its message exactly when what was written in front of p' was there before, wherever
      that is inside what it shows. */
  lemma OtherShows(mem: seq<byte>, size: nat, p': nat, n: nat, q: nat)
    requires HEAD <= p' <= |mem| && p' - HEAD < 0x1_0000_0000
    requires n <= size && HEAD <= q && q + size <= |mem|
    ensures var r := Tagged(mem, p'); var written := PutL(p' - HEAD) + PutL(TAG);
      && |r[q..q + size - n]| == size - n
      && (r[q..q + size - n] <= mem[q..q + size] <==>
            forall i :: p' - HEAD <= i < p' && q <= i < q + size - n ==> mem[i] == written[i - (p' - HEAD)])
  {
    hide PutL;
    var r := Tagged(mem, p');
    var written := PutL(p' - HEAD) + PutL(TAG);
    assert forall i :: 0 <= i < |mem| ==>
      r[i] == if p' - HEAD <= i < p' then written[i - (p' - HEAD)] else mem[i];
    var a, b := r[q..q + size - n], mem[q..q + size];
    if a <= b {
      forall i | p' - HEAD <= i < p' && q <= i < q + size - n ensures mem[i] == written[i - (p' - HEAD)] {
        assert a[i - q] == b[i - q];
      }
    }
    if forall i :: p' - HEAD <= i < p' && q <= i < q + size - n ==> mem[i] == written[i - (p' - HEAD)] {
      assert a == b[..|a|];
    }
  }

  function Forty(): (s: seq<byte>)
    ensures |s| == 40
  {
    seq(40, i requires 0 <= i < 40 => i)
  }

  // A chunk of forty bytes and two references to it.
  function Two(): State {
    Init(Forty()).(count := 2, live := map[0 := HEAD, 1 := HEAD])
  }

  ghost predicate Reached(s: State) {
    var i := Init(Forty());
    Inside(i) && CanStep(i, Copy(0, 1)) && Apply(i, Copy(0, 1)) == Some(s)
  }

  lemma TwoReached()
    ensures Reached(Two())
  {
    hide PutL, GetL, Forty, Recoverable;
    InitFaithful(Forty());
    assert Shows(Init(Forty()).mem, HEAD, 40, Forty());
    assert map[0 := HEAD][1 := HEAD] == map[0 := HEAD, 1 := HEAD];
  }

  /** Trimming eight bytes through one of them leaves the other with 32 bytes of which the
      first eight are what was written in front of the new data. */
  lemma TrimOverwrites()
    ensures var s := Two(); Reached(s) && Inside(s) && CanStep(s, Trim(0, 8)) && Apply(s, Trim(0, 8)).Some?
    ensures var t := Apply(Two(), Trim(0, 8)).value;
      && t.live[1] == HEAD && t.size == 32 && Recoverable(t.mem, HEAD)
      && t.mem[HEAD..HEAD + 8] == PutL(8) + PutL(TAG)
  {
    hide PutL, GetL, Reached;
    var s := Two();
    TwoReached();
    TwoFields();
    var t := Apply(s, Trim(0, 8)).value;
    assert t.mem == Tagged(s.mem, 16);
    assert t.mem[HEAD..HEAD + 8] == PutL(8) + PutL(TAG);
    OtherReference(s.mem, 16, HEAD);
  }

  lemma TwoFields()
    ensures |Two().mem| == 48 && Recoverable(Two().mem, HEAD) && Inside(Two())
  {
    hide PutL, GetL, Forty, Recoverable;
    InitFaithful(Forty());
    assert Shows(Init(Forty()).mem, HEAD, 40, Forty());
  }

  /** Trimming four bytes leaves the other without a way to the header: terminating it fails
      the assertion. */
  lemma TrimDestroys()
    ensures var s := Two(); Reached(s) && Inside(s) && CanStep(s, Trim(0, 4)) && Apply(s, Trim(0, 4)).Some?
    ensures var t := Apply(Two(), Trim(0, 4)).value;
      CanStep(t, Term(1)) && Apply(t, Term(1)) == None
  {
    hide PutL, GetL, Reached;
    TwoReached();
    TwoFields();
    OtherReference(Two().mem, 12, HEAD);
  }
}

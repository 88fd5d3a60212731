/** Message chunks that are trimmed from the front (src/utils/chunk.c) and references to them,
    inline or on the heap (src/utils/chunkref.c). */
module Chunk {
  import opened Bytes
  import opened Wire

  const TAG: word := 0xdead_cafe
  const DEALLOCATED: word := 0xbead_feed
  const HEAD: nat := 8                         // the empty space's size and the tag
  const REF_MAX: nat := 32                     // GRID_CHUNKREF_MAX

  // ---------- The bytes behind a chunk's header ----------

  // grid_chunk_getptr finds the header: at p there are data of the chunk, in front of them
  // the tag, and in front of that how far the header is away.
  predicate Recoverable(mem: seq<byte>, p: nat) {
    HEAD <= p <= |mem| && GetL(mem[p - 4..]) == TAG && GetL(mem[p - 8..]) == p - HEAD
  }

  // The tag and the size of the empty space written in front of p.
  function Tagged(mem: seq<byte>, p: nat): (r: seq<byte>)
    requires HEAD <= p <= |mem| && p - HEAD < 0x1_0000_0000
    ensures |r| == |mem|
  {
    mem[..p - HEAD] + PutL(p - HEAD) + PutL(TAG) + mem[p..]
  }

  lemma TaggedRecovers(mem: seq<byte>, p: nat)
    requires HEAD <= p <= |mem| && p - HEAD < 0x1_0000_0000
    ensures Recoverable(Tagged(mem, p), p) && Tagged(mem, p)[p..] == mem[p..]
  {
    hide PutL, GetL;
    var r := Tagged(mem, p);
    assert r[p - 4..] == PutL(TAG) + mem[p..];
    GetPut(TAG, mem[p..]);
    assert r[p - 8..] == PutL(p - HEAD) + (PutL(TAG) + mem[p..]);
    GetPut(p - HEAD, PutL(TAG) + mem[p..]);
  }

  lemma SameHead(a: seq<byte>, b: seq<byte>, q: nat)
    requires |a| == |b| && HEAD <= q <= |a| && a[q - HEAD..q] == b[q - HEAD..q]
    ensures Recoverable(a, q) <==> Recoverable(b, q)
  {
    assert forall i :: q - HEAD <= i < q ==> a[i] == a[q - HEAD..q][i - (q - HEAD)];
    assert forall i :: q - HEAD <= i < q ==> b[i] == b[q - HEAD..q][i - (q - HEAD)];
  }

  // Four to seven bytes apart, the last bytes of the tag of one are the first bytes of the
  // offset of the other; they coincide only for chunks of more than 0xadcafe00 bytes.
  predicate Coincide(p: nat, q: nat) {
    var offset := (if p > q then p else q) - HEAD;
    match (if p > q then p - q else q - p)
    case 4 => offset == TAG
    case 5 => offset / 0x100 == TAG % 0x100_0000
    case 6 => offset / 0x1_0000 == TAG % 0x1_0000
    case 7 => offset / 0x100_0000 == TAG % 0x100
    case _ => false
  }

  /** What trimming one reference does to another one of the same chunk: its header is still
      found exactly when the eight bytes in front of it are not partly overwritten, or happen
      to be overwritten by what was there.  So in a chunk of ordinary size it is lost when the
      trim is by one to seven bytes from the same place. */
  lemma OtherReference(mem: seq<byte>, p: nat, q: nat)
    requires HEAD <= p <= |mem| && p - HEAD < 0x1_0000_0000 && Recoverable(mem, q)
    ensures Recoverable(Tagged(mem, p), q) <==>
      q == p || q + HEAD <= p || p + HEAD <= q || Coincide(p, q)
  {
    hide GetL, PutL, Tagged, Coincide;
    var r := Tagged(mem, p);
    if q == p {
      TaggedRecovers(mem, p);
    } else if q + HEAD <= p || p + HEAD <= q {
      TaggedAt(mem, p);
      assert r[q - HEAD..q] == mem[q - HEAD..q];
      SameHead(mem, r, q);
    } else if q < p {
      Behind(mem, p, q);
    } else {
      Ahead(mem, p, q);
    }
  }

  // A word by its bytes.
  lemma WordIs(b: seq<byte>, v: word)
    requires |b| >= 4
    ensures GetL(b) == v <==> b[..4] == PutL(v)
  {
    hide GetL, PutL;
    PutGet(b);
    GetPut(v, b[4..]);
    if b[..4] == PutL(v) { assert b == PutL(v) + b[4..]; }
  }

  lemma IsTag(b: seq<byte>)
    requires |b| >= 4
    ensures GetL(b) == TAG <==> b[0] == 0xde && b[1] == 0xad && b[2] == 0xca && b[3] == 0xfe
  {
  }

  lemma TaggedAt(mem: seq<byte>, p: nat)
    requires HEAD <= p <= |mem| && p - HEAD < 0x1_0000_0000
    ensures var r := Tagged(mem, p); var w := PutL(p - HEAD);
      && r[p - 8] == w[0] && r[p - 7] == w[1] && r[p - 6] == w[2] && r[p - 5] == w[3]
      && r[p - 4] == 0xde && r[p - 3] == 0xad && r[p - 2] == 0xca && r[p - 1] == 0xfe
      && (forall i :: 0 <= i < p - HEAD || p <= i < |mem| ==> r[i] == mem[i])
  {
    TagBytes();
  }

  lemma TagBytes()
    ensures PutL(TAG) == [0xde, 0xad, 0xca, 0xfe]
  {
  }

  // The first bytes of a word.
  lemma FirstBytes(v: word)
    ensures var w := PutL(v);
      && (v == TAG <==> w[0] == 0xde && w[1] == 0xad && w[2] == 0xca && w[3] == 0xfe)
      && (v / 0x100 == TAG % 0x100_0000 <==> w[0] == 0xad && w[1] == 0xca && w[2] == 0xfe)
      && (v / 0x1_0000 == TAG % 0x1_0000 <==> w[0] == 0xca && w[1] == 0xfe)
      && (v / 0x100_0000 == TAG % 0x100 <==> w[0] == 0xfe)
  {
    assert v == v / 0x100 * 0x100 + v % 0x100;
    assert v / 0x100 == v / 0x1_0000 * 0x100 + v / 0x100 % 0x100;
    assert v / 0x1_0000 == v / 0x100_0000 * 0x100 + v / 0x1_0000 % 0x100;
  }

  // The other reference is one to seven bytes in front: part of its tag is overwritten.
  lemma Behind(mem: seq<byte>, p: nat, q: nat)
    requires HEAD <= q < p <= |mem| && p < q + HEAD && p - HEAD < 0x1_0000_0000 && Recoverable(mem, q)
    ensures Recoverable(Tagged(mem, p), q) <==> Coincide(p, q)
  {
    hide GetL, PutL, Tagged;
    var r := Tagged(mem, p);
    TaggedAt(mem, p);
    FirstBytes(p - HEAD);
    IsTag(r[q - 4..]);
    IsTag(mem[q - 4..]);
    WordIs(r[q - 8..], q - HEAD);
    WordIs(mem[q - 8..], q - HEAD);
    if p - q >= 4 { assert r[q - 8..][..4] == mem[q - 8..][..4]; }
  }

  // It is one to seven bytes behind: part of its offset is.
  lemma Ahead(mem: seq<byte>, p: nat, q: nat)
    requires HEAD <= p < q <= |mem| && q < p + HEAD && p - HEAD < 0x1_0000_0000 && Recoverable(mem, q)
    ensures Recoverable(Tagged(mem, p), q) <==> Coincide(p, q)
  {
    hide GetL, PutL, Tagged;
    var r := Tagged(mem, p);
    TaggedAt(mem, p);
    FirstBytes(q - HEAD);
    IsTag(r[q - 4..]);
    IsTag(mem[q - 4..]);
    WordIs(r[q - 8..], q - HEAD);
    WordIs(mem[q - 8..], q - HEAD);
    assert mem[q - 8..][..4] == PutL(q - HEAD);
    if q - p >= 4 { SameWord(r[q - 8..][..4], mem[q - 8..][..4], 8 - (q - p)); }
  }

  // Words that differ at most in their first n bytes.
  lemma SameWord(a: seq<byte>, b: seq<byte>, n: nat)
    requires |a| == |b| == 4 && forall k :: n <= k < 4 ==> a[k] == b[k]
    ensures a == b <==> forall k :: 0 <= k < 4 && k < n ==> a[k] == b[k]
  {
  }

  // ---------- The chunk ----------

  class ChunkObject {
    var refcount: int
    var size: nat
    var freed: bool
    const mem: array<byte>                     // the empty space, its size, the tag and the data
    ghost var owners: set<ChunkRef>            // the references to it
    ghost var loose: nat                       // bare pointers, and copies promised

    // The count is that of the references, and without any the memory is gone.
    ghost predicate Valid()
      reads this
    {
      refcount == |owners| + loose && (freed <==> owners == {} && loose == 0)
    }

    // A reference that the source's functions accept.
    predicate Refers(p: nat)
      reads this, mem
    {
      !freed && Recoverable(mem[..], p) && p + size <= mem.Length
    }

    // The bytes that a reference shows.
    function Shown(p: nat): seq<byte>
      requires p + size <= mem.Length
      reads this, mem
    {
      mem[p..p + size]
    }

    // grid_chunk_alloc.
    constructor (size: nat)
      ensures Valid() && owners == {} && loose == 1 && this.size == size
      ensures fresh(mem) && mem.Length == HEAD + size && Refers(HEAD)
    {
      this.size, refcount, freed, owners, loose := size, 1, false, {}, 1;
      mem := new byte[HEAD + size];
      new;
      WriteL(mem, 0, 0);
      WriteL(mem, 4, TAG);
      assert mem[..] == Tagged(mem[..], HEAD);
      TaggedRecovers(mem[..], HEAD);
    }

    // grid_chunk_addref.
    method AddRef(p: nat, n: nat)
      requires Valid() && Refers(p)
      modifies this`refcount, this`loose
      ensures Valid() && loose == old(loose) + n
    {
      refcount := refcount + n;
      loose := loose + n;
    }

    /** grid_chunk_free of a bare pointer: the memory goes exactly when nothing else refers to
        the chunk. */
    method Free(p: nat)
      requires Valid() && Refers(p) && loose > 0
      modifies this`refcount, this`loose, this`freed, mem
      ensures Valid() && loose == old(loose) - 1 && (freed <==> owners == {} && loose == 0)
      ensures !freed ==> mem[..] == old(mem[..])
      ensures freed ==> !Recoverable(mem[..], p)
    {
      refcount := refcount - 1;
      loose := loose - 1;
      if refcount <= 0 {
        WriteL(mem, p - 4, DEALLOCATED);
        freed := true;
        NotFound(mem[..], old(mem[..]), p);
      }
    }

    /** grid_chunk_trim: the result shows what was shown, without the first n bytes.  The
        size is shared by all references to the chunk. */
    method Trim(p: nat, n: nat) returns (q: nat)
      requires Valid() && Refers(p) && n <= size && p + n < 0xffff_ffff
      modifies this`size, mem
      ensures Valid() && q == p + n && size == old(size) - n
      ensures Refers(q) && Shown(q) == old(Shown(p))[n..]
      ensures mem[..] == Tagged(old(mem[..]), q)
    {
      hide PutL, GetL, Tagged;
      q := p + n;
      ghost var was := mem[..];
      WriteHead(q);
      TaggedRecovers(was, q);
      assert mem[..][q..] == was[q..];
      size := size - n;
      assert mem[q..q + size] == was[q..q + size] by { SameTail(mem[..], was, q, q + size); }
    }

    method WriteHead(q: nat)
      requires HEAD <= q <= mem.Length && q - HEAD < 0x1_0000_0000
      modifies mem
      ensures mem[..] == Tagged(old(mem[..]), q)
    {
      hide PutL, GetL;
      ghost var was := mem[..];
      WriteL(mem, q - 4, TAG);
      assert mem[..q - HEAD] == was[..q - HEAD];
      assert mem[q - 4..] == PutL(TAG) + was[q..];
      WriteL(mem, q - 8, q - HEAD);
      assert mem[..] == Tagged(was, q);
    }
  }

  // The tag of a chunk that was deallocated.
  lemma NotFound(mem: seq<byte>, was: seq<byte>, p: nat)
    requires HEAD <= p <= |was| && mem == was[..p - 4] + PutL(DEALLOCATED) + was[p..]
    ensures !Recoverable(mem, p)
  {
    hide PutL, GetL;
    assert mem[p - 4..] == PutL(DEALLOCATED) + was[p..];
    GetPut(DEALLOCATED, was[p..]);
  }

  lemma SameTail(a: seq<byte>, b: seq<byte>, q: nat, r: nat)
    requires |a| == |b| && q <= r <= |a| && a[q..] == b[q..]
    ensures a[q..r] == b[q..r]
  {
    assert a[q..r] == a[q..][..r - q];
    assert b[q..r] == b[q..][..r - q];
  }

  // ---------- References ----------

  /** A reference: 32 bytes of which the first is the size of an inline message, or 0xff when
      there is a chunk. */
  class ChunkRef {
    const ref: array<byte>
    var chunk: ChunkObject?
    var p: nat

    ghost predicate Valid()
      reads this, ref, chunk, if chunk != null then {chunk.mem} else {}
    {
      && ref.Length == REF_MAX
      && if ref[0] == 0xff then
           chunk != null && chunk.Valid() && chunk.Refers(p) && chunk.mem != ref && this in chunk.owners
         else ref[0] as nat < REF_MAX
    }

    // The bytes of the message.
    ghost function Message(): seq<byte>
      requires Valid()
      reads this, ref, chunk, if chunk != null then {chunk.mem} else {}
    {
      if ref[0] == 0xff then chunk.Shown(p) else ref[1..1 + ref[0]]
    }

    // grid_chunkref_init: the bytes are whatever is there.
    constructor (size: nat)
      ensures Valid() && fresh(ref) && |Message()| == size
      ensures ref[0] == 0xff <==> size >= REF_MAX
      ensures ref[0] == 0xff ==>
        fresh(chunk) && fresh(chunk.mem) && chunk.owners == {this} && chunk.loose == 0
    {
      ref := new byte[REF_MAX];
      chunk, p := null, 0;
      new;
      if size < REF_MAX {
        ref[0] := size;
      } else {
        ref[0] := 0xff;
        chunk := new ChunkObject(size);
        chunk.owners, chunk.loose := {this}, 0;
        p := HEAD;
      }
    }

    // grid_chunkref_size.
    method Size() returns (n: nat)
      requires Valid()
      ensures n == |Message()|
    {
      n := if ref[0] == 0xff then chunk.size else ref[0];
    }

    /** grid_chunkref_trim does the same to the bytes of an inline and of a heap message. */
    method Trim(n: nat)
      requires Valid() && n <= |Message()| && (ref[0] == 0xff ==> p + n < 0xffff_ffff)
      modifies this`p, ref, chunk, if chunk != null then {chunk.mem} else {}
      ensures Valid() && Message() == old(Message())[n..]
      ensures ref[0] == 0xff ==>
        && p == old(p) + n && chunk.size == old(chunk.size) - n && chunk.owners == old(chunk.owners)
        && chunk.mem[..] == Tagged(old(chunk.mem[..]), p)
    {
      hide PutL, GetL, Tagged, Recoverable;
      if ref[0] == 0xff {
        p := chunk.Trim(p, n);
        return;
      }
      MoveDown(n, ref[0]);
      ref[0] := ref[0] - n;
    }

    // The memmove of grid_chunkref_trim.
    method MoveDown(n: nat, size: nat)
      requires n <= size < REF_MAX == ref.Length
      modifies ref
      ensures ref[0] == old(ref[0]) && ref[1..1 + size - n] == old(ref[1 + n..1 + size])
    {
      for i := 0 to size - n
        invariant ref[0] == old(ref[0])
        invariant ref[1..1 + i] == old(ref[1 + n..1 + n + i])
        invariant ref[1 + i..] == old(ref[1 + i..])
      {
        assert ref[1 + n + i] == ref[1 + i..][n] == old(ref[1 + i..])[n];
        ref[1 + i] := ref[1 + n + i];
      }
    }

    /** grid_chunkref_getchunk: the message's bytes as a chunk, by a bare pointer that takes
        over from the reference, and an empty reference. */
    method GetChunk() returns (c: ChunkObject, at: nat)
      requires Valid()
      modifies ref, chunk
      ensures c.Valid() && c.Refers(at) && c.Shown(at) == old(Message())
      ensures Valid() && Message() == []
      ensures old(ref[0]) == 0xff ==>
        c == old(chunk) && c.owners == old(chunk.owners) - {this} && c.loose == old(chunk.loose) + 1
      ensures old(ref[0]) != 0xff ==> fresh(c) && c.owners == {} && c.loose == 1
    {
      if ref[0] == 0xff {
        ref[0] := 0;
        chunk.owners, chunk.loose := chunk.owners - {this}, chunk.loose + 1;
        return chunk, p;
      }
      c := new ChunkObject(ref[0]);
      at := HEAD;
      CopyOut(c);
      ref[0] := 0;
    }

    // The memcpy of grid_chunkref_getchunk.
    method CopyOut(c: ChunkObject)
      requires ref.Length == REF_MAX && ref[0] as nat < REF_MAX && c.mem.Length == HEAD + ref[0] && c.mem != ref
      requires c.Refers(HEAD) && c.size == ref[0]
      modifies c.mem
      ensures c.Refers(HEAD) && c.Shown(HEAD) == ref[1..1 + ref[0]]
    {
      hide GetL;
      ghost var was := c.mem[..];
      Copy(c.mem, HEAD, ref[1..1 + ref[0]]);
      ghost var now := c.mem[..];
      assert now[..HEAD] == c.mem[..HEAD] == was[..HEAD];
      assert now[HEAD - HEAD..HEAD] == now[..HEAD] && was[HEAD - HEAD..HEAD] == was[..HEAD];
      SameHead(was, now, HEAD);
      assert c.mem[HEAD..HEAD + c.size] == c.mem[..][HEAD..] == ref[1..1 + ref[0]];
    }

    // The memcpy of grid_chunkref_cp and grid_chunkref_bulkcopy_cp.
    method CopyBits(dst: ChunkRef)
      requires ref.Length == dst.ref.Length == REF_MAX && dst != this && dst.ref != ref
      modifies dst, dst.ref
      ensures dst.ref[..] == ref[..] && dst.chunk == chunk && dst.p == p
    {
      dst.chunk, dst.p := chunk, p;
      for i := 0 to REF_MAX
        modifies dst.ref
        invariant dst.ref[..i] == ref[..i]
      {
        dst.ref[i] := ref[i];
      }
      assert dst.ref[..] == dst.ref[..REF_MAX] && ref[..] == ref[..REF_MAX];
    }

    // Where a reference may be copied to: memory that is no reference to the chunk.
    ghost predicate Vacant(dst: ChunkRef)
      requires Valid()
      reads this, ref, chunk, dst, if chunk != null then {chunk.mem} else {}
    {
      && dst != this && dst.ref.Length == REF_MAX && dst.ref != ref
      && (chunk != null ==> dst.ref != chunk.mem)
      && (ref[0] == 0xff ==> dst !in chunk.owners)
    }

    /** grid_chunkref_mv: the same message; the destination takes over from the source, which
        is dead. */
    method MoveTo(dst: ChunkRef)
      requires Valid() && Vacant(dst)
      modifies dst, dst.ref, chunk
      ensures dst.Valid() && dst.Message() == old(Message())
      ensures dst.ref[0] == old(ref[0]) && dst.chunk == chunk
      ensures ref[0] == 0xff ==>
        chunk.owners == old(chunk.owners) - {this} + {dst} && chunk.loose == old(chunk.loose)
    {
      CopyBits(dst);
      SameBits(dst);
      if ref[0] == 0xff {
        Replaced(chunk.owners, this, dst);
        chunk.owners := chunk.owners - {this} + {dst};
      }
    }

    // The inline bytes of a copy.
    lemma SameBits(dst: ChunkRef)
      requires ref.Length == dst.ref.Length == REF_MAX && dst.ref[..] == ref[..]
      ensures dst.ref[0] == ref[0]
      ensures ref[0] as nat < REF_MAX ==> dst.ref[1..1 + ref[0]] == ref[1..1 + ref[0]]
    {
      assert dst.ref[0] == dst.ref[..][0] == ref[..][0];
      if ref[0] as nat < REF_MAX {
        assert dst.ref[1..1 + ref[0]] == dst.ref[..][1..1 + ref[0]];
        assert ref[1..1 + ref[0]] == ref[..][1..1 + ref[0]];
      }
    }

    /** grid_chunkref_bulkcopy_start: a chunk has that many references promised, an inline
        message needs none. */
    method BulkStart(copies: nat)
      requires Valid()
      modifies chunk
      ensures Valid() && Message() == old(Message())
      ensures chunk != null ==>
        && chunk.owners == old(chunk.owners)
        && chunk.loose == old(chunk.loose) + if ref[0] == 0xff then copies else 0
    {
      if ref[0] == 0xff { chunk.AddRef(p, copies); }
    }

    /** grid_chunkref_bulkcopy_cp: both show the message; the copy is one of those promised. */
    method BulkCopyTo(dst: ChunkRef)
      requires Valid() && Vacant(dst) && (ref[0] == 0xff ==> chunk.loose > 0)
      modifies dst, dst.ref, chunk
      ensures Valid() && dst.Valid() && Message() == old(Message()) == dst.Message()
      ensures dst.ref[0] == ref[0] && dst.chunk == chunk
      ensures ref[0] == 0xff ==>
        chunk.owners == old(chunk.owners) + {dst} && chunk.loose == old(chunk.loose) - 1
    {
      CopyBits(dst);
      SameBits(dst);
      if ref[0] == 0xff { chunk.owners, chunk.loose := chunk.owners + {dst}, chunk.loose - 1; }
    }

    /** grid_chunkref_cp: both show the message, and both own the chunk. */
    method CopyTo(dst: ChunkRef)
      requires Valid() && Vacant(dst)
      modifies dst, dst.ref, chunk
      ensures Valid() && dst.Valid() && Message() == old(Message()) == dst.Message()
      ensures dst.ref[0] == ref[0] && dst.chunk == chunk
      ensures ref[0] == 0xff ==>
        chunk.owners == old(chunk.owners) + {dst} && chunk.loose == old(chunk.loose)
    {
      BulkStart(1);
      BulkCopyTo(dst);
    }

    /** grid_chunkref_term: the chunk goes exactly with its last reference. */
    method Term()
      requires Valid()
      modifies chunk, if chunk != null then {chunk.mem} else {}
      ensures ref[0] == 0xff ==>
        && chunk.Valid() && chunk.owners == old(chunk.owners) - {this} && chunk.loose == old(chunk.loose)
        && (chunk.freed <==> chunk.owners == {} && chunk.loose == 0)
        && (!chunk.freed ==> chunk.mem[..] == old(chunk.mem[..]))
    {
      if ref[0] == 0xff {
        chunk.owners, chunk.loose := chunk.owners - {this}, chunk.loose + 1;
        chunk.Free(p);
      }
    }
  }

  lemma Replaced(s: set<ChunkRef>, x: ChunkRef, y: ChunkRef)
    requires x in s && y !in s
    ensures |s - {x} + {y}| == |s|
  {
  }
}

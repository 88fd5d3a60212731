/** The trie in memory: nodes with an array of child pointers, and the picture of a
    heap of such nodes that makes them a tree. */
module TrieMemory {
  import opened Bytes
  import opened ChildTable
  import opened TrieTree

  /** struct grid_trie_node and the child array behind it.  `prefix_len` is the length
      of `prefix`; `type` and the union are `layout`. */
  class TrieNode {
    var refcount: nat
    var prefix: seq<byte>
    var layout: Layout
    var child: seq<TrieNode?>

    constructor (refcount: nat, prefix: seq<byte>, layout: Layout, child: seq<TrieNode?>)
      ensures this.refcount == refcount && this.prefix == prefix
      ensures this.layout == layout && this.child == child
    {
      this.refcount, this.prefix := refcount, prefix;
      this.layout, this.child := layout, child;
    }
  }

  /** What a pointer leads to: which nodes, how they hang together, what is in them. */
  datatype Image =
    | Null
    | Cell(node: TrieNode, refs: nat, prefix: seq<byte>, kids: Table<Image>)

  function Addr(im: Image): TrieNode? {
    if im == Null then null else im.node
  }

  // The value the image stands for.
  function AsTree(im: Image): Tree {
    match im
    case Null => Nil
    case Cell(_, refs, prefix, kids) =>
      Node(refs, prefix, Table(kids.layout, AsTrees(kids.slots)))
  }

  function AsTrees(ims: seq<Image>): (ts: seq<Tree>)
    ensures |ts| == |ims|
    ensures forall i :: 0 <= i < |ims| ==> ts[i] == AsTree(ims[i])
  {
    if ims == [] then [] else [AsTree(ims[0])] + AsTrees(ims[1..])
  }

  function Addrs(ims: seq<Image>): (ns: seq<TrieNode?>)
    ensures |ns| == |ims|
    ensures forall i :: 0 <= i < |ims| ==> ns[i] == Addr(ims[i])
  {
    seq(|ims|, i requires 0 <= i < |ims| => Addr(ims[i]))
  }

  ghost function Nodes(im: Image): (s: set<TrieNode>)
    ensures im.Cell? ==> im.node in s
  {
    match im
    case Null => {}
    case Cell(node, _, _, kids) =>
      {node} + set i, n | 0 <= i < |kids.slots| && n in Nodes(kids.slots[i]) :: n
  }

  lemma NodesBelow(im: Image, i: nat)
    requires im.Cell? && i < |im.kids.slots|
    ensures Nodes(im.kids.slots[i]) <= Nodes(im)
  {
  }

  // No node occurs twice: the pointers form a tree.
  ghost predicate Separate(im: Image) {
    match im
    case Null => true
    case Cell(node, _, _, kids) =>
      && (forall i :: 0 <= i < |kids.slots| ==> node !in Nodes(kids.slots[i]) && Separate(kids.slots[i]))
      && (forall i, j :: 0 <= i < j < |kids.slots| ==> Nodes(kids.slots[i]) !! Nodes(kids.slots[j]))
  }

  // The memory looks like the image.
  ghost predicate Matches(im: Image)
    reads Nodes(im)
  {
    match im
    case Null => true
    case Cell(node, refs, prefix, kids) =>
      && Holds(node, refs, prefix, kids)
      && forall i :: 0 <= i < |kids.slots| ==> Matches(kids.slots[i])
  }

  // One node looks like its part of the image.
  ghost predicate Holds(node: TrieNode, refs: nat, prefix: seq<byte>, kids: Table<Image>)
    reads node
  {
    && node.refcount == refs
    && node.prefix == prefix
    && node.layout == kids.layout
    && node.child == Addrs(kids.slots)
  }

  // ---------- Tables of images, of pointers and of trees ----------

  function Map<A, B>(f: A -> B, s: seq<A>): (r: seq<B>)
    ensures |r| == |s|
    ensures forall i :: 0 <= i < |s| ==> r[i] == f(s[i])
  {
    seq(|s|, i requires 0 <= i < |s| => f(s[i]))
  }

  function MapTable<A, B>(f: A -> B, t: Table<A>): Table<B> {
    Table(t.layout, Map(f, t.slots))
  }

  lemma TreeTable(kids: Table<Image>)
    ensures Table(kids.layout, AsTrees(kids.slots)) == MapTable(AsTree, kids)
    ensures Table(kids.layout, Addrs(kids.slots)) == MapTable(Addr, kids)
  {
    assert AsTrees(kids.slots) == Map(AsTree, kids.slots);
    assert Addrs(kids.slots) == Map(Addr, kids.slots);
  }

  lemma SpreadMap<A, B>(f: A -> B, chars: seq<byte>, s: seq<A>, nil: A, min: byte, max: byte)
    requires |chars| == |s| && min <= max
    ensures Map(f, Spread(chars, s, nil, min, max)) == Spread(chars, Map(f, s), f(nil), min, max)
  {
    var l := Map(f, Spread(chars, s, nil, min, max));
    var r := Spread(chars, Map(f, s), f(nil), min, max);
    forall k | 0 <= k < |l| ensures l[k] == r[k] {
      var i := IndexOf(chars, k + min);
      assert l[k] == f(if i < |chars| then s[i] else nil);
    }
  }

  // Growing a table does not look at what the slots hold.
  lemma GrowMap<A, B>(f: A -> B, t: Table<A>, nil: A, c: byte, x: A)
    requires Sized(t)
    ensures MapTable(f, Grow(t, nil, c, x)) == Grow(MapTable(f, t), f(nil), c, f(x))
  {
    match t.layout
    case Sparse(chars) =>
      if |chars| < SPARSE_MAX {
        assert Map(f, t.slots + [x]) == Map(f, t.slots) + [f(x)];
      } else {
        RangeBounds(chars, c);
        var min := Min(Lowest(chars, 255), c);
        var max := Max(Highest(chars, 0), c);
        SpreadMap(f, chars, t.slots, nil, min, max);
        var sp := Spread(chars, t.slots, nil, min, max);
        assert Map(f, sp[c - min := x]) == Map(f, sp)[c - min := f(x)];
      }
    case Dense(min, max, nbr) =>
      if c < min {
        assert Map(f, [x] + seq(min - c - 1, _ => nil) + t.slots)
          == [f(x)] + seq(min - c - 1, _ => f(nil)) + Map(f, t.slots);
      } else if c > max {
        assert Map(f, t.slots + seq(c - max - 1, _ => nil) + [x])
          == Map(f, t.slots) + seq(c - max - 1, _ => f(nil)) + [f(x)];
      } else {
        assert Map(f, t.slots[c - min := x]) == Map(f, t.slots)[c - min := f(x)];
      }
  }

  // Shrinking looks only at which slots are empty.
  ghost predicate KeepsNil<A, B>(f: A -> B, s: seq<A>, nil: A) {
    forall x | x in s :: f(x) == f(nil) ==> x == nil
  }

  lemma {:induction false} GatherMap<A, B>(f: A -> B, s: seq<A>, nil: A, min: nat)
    requires min + |s| <= 256 && KeepsNil(f, s, nil)
    ensures Gather(Map(f, s), f(nil), min).0 == Gather(s, nil, min).0
    ensures Gather(Map(f, s), f(nil), min).1 == Map(f, Gather(s, nil, min).1)
  {
    if s != [] {
      assert Map(f, s)[1..] == Map(f, s[1..]);
      GatherMap(f, s[1..], nil, min + 1);
    }
  }

  lemma FirstLiveMap<A, B>(f: A -> B, s: seq<A>, nil: A)
    requires KeepsNil(f, s, nil)
    ensures FirstLive(Map(f, s), f(nil)) == FirstLive(s, nil)
  {
    var i, j := FirstLive(Map(f, s), f(nil)), FirstLive(s, nil);
    assert i < |s| ==> Map(f, s)[i] == f(s[i]);
    assert j < |s| ==> Map(f, s)[j] == f(s[j]);
  }

  lemma LastLiveMap<A, B>(f: A -> B, s: seq<A>, nil: A)
    requires KeepsNil(f, s, nil)
    ensures LastLive(Map(f, s), f(nil)) == LastLive(s, nil)
  {
    var i, j := LastLive(Map(f, s), f(nil)), LastLive(s, nil);
    assert i > 0 ==> Map(f, s)[i - 1] == f(s[i - 1]);
    assert j > 0 ==> Map(f, s)[j - 1] == f(s[j - 1]);
  }

  // f carries the outcome of shrinking from one table to the other.
  ghost predicate ShrinksAlong<A, B>(f: A -> B, t: Table<A>, nil: A, i: nat, c: byte)
    requires Sized(t) && i < |t.slots|
  {
    var r := Shrink(t, nil, i, c);
    var r' := Shrink(MapTable(f, t), f(nil), i, c);
    (r'.Some? <==> r.Some?) && (r.Some? ==> r'.value == MapTable(f, r.value))
  }

  lemma ShrinkMapConvert<A, B>(f: A -> B, t: Table<A>, s: seq<A>, nil: A, i: nat, c: byte)
    requires Sized(t) && t.layout.Dense? && i < |t.slots| && s == t.slots[i := nil] && KeepsNil(f, s, nil)
    requires t.layout.nbr <= SPARSE_MAX + 1
    ensures ShrinksAlong(f, t, nil, i, c)
  {
    assert Map(f, s) == Map(f, t.slots)[i := f(nil)];
    GatherMap(f, s, nil, t.layout.min);
  }

  lemma ShrinkMapLeft<A, B>(f: A -> B, t: Table<A>, s: seq<A>, nil: A, i: nat, c: byte)
    requires Sized(t) && t.layout.Dense? && i < |t.slots| && s == t.slots[i := nil] && KeepsNil(f, s, nil)
    requires t.layout.nbr > SPARSE_MAX + 1 && c == t.layout.min
    ensures ShrinksAlong(f, t, nil, i, c)
  {
    hide FirstLive;
    assert Map(f, s) == Map(f, t.slots)[i := f(nil)];
    FirstLiveMap(f, s, nil);
    var k := FirstLive(s, nil);
    assert Map(f, s[k..]) == Map(f, s)[k..];
  }

  lemma ShrinkMapRight<A, B>(f: A -> B, t: Table<A>, s: seq<A>, nil: A, i: nat, c: byte)
    requires Sized(t) && t.layout.Dense? && i < |t.slots| && s == t.slots[i := nil] && KeepsNil(f, s, nil)
    requires t.layout.nbr > SPARSE_MAX + 1 && c == t.layout.max && c != t.layout.min
    ensures ShrinksAlong(f, t, nil, i, c)
  {
    hide LastLive;
    assert Map(f, s) == Map(f, t.slots)[i := f(nil)];
    assert KeepsNil(f, s[1..], nil);
    LastLiveMap(f, s[1..], nil);
    assert Map(f, s[1..]) == Map(f, s)[1..];
    var k := LastLive(s[1..], nil);
    assert Map(f, s[..k + 1]) == Map(f, s)[..k + 1];
  }

  lemma ShrinkMap<A, B>(f: A -> B, t: Table<A>, nil: A, i: nat, c: byte)
    requires Sized(t) && i < |t.slots| && KeepsNil(f, t.slots, nil)
    ensures ShrinksAlong(f, t, nil, i, c)
  {
    var s := t.slots[i := nil];
    assert KeepsNil(f, s, nil) by {
      assert forall x :: x in s ==> x == nil || x in t.slots;
    }
    if t.layout.Sparse? {
      assert Map(f, t.slots[..i] + t.slots[i + 1..]) == Map(f, t.slots)[..i] + Map(f, t.slots)[i + 1..];
    } else if t.layout.nbr <= SPARSE_MAX + 1 {
      ShrinkMapConvert(f, t, s, nil, i, c);
    } else if c == t.layout.min {
      ShrinkMapLeft(f, t, s, nil, i, c);
    } else if c == t.layout.max {
      ShrinkMapRight(f, t, s, nil, i, c);
    } else {
      assert Map(f, s) == Map(f, t.slots)[i := f(nil)];
    }
  }

  lemma {:induction false} LiveTrees(s: seq<Image>)
    ensures Live(AsTrees(s), Nil) == Live(s, Null)
  {
    if s != [] { LiveTrees(s[1..]); }
  }

  // A valid table of trees comes from a valid table of images.
  lemma ValidImages(kids: Table<Image>)
    ensures ChildTable.Valid(Table(kids.layout, AsTrees(kids.slots)), Nil) <==> ChildTable.Valid(kids, Null)
  {
    LiveTrees(kids.slots);
    assert Nil in AsTrees(kids.slots) <==> Null in kids.slots by {
      if Null in kids.slots {
        var i :| 0 <= i < |kids.slots| && kids.slots[i] == Null;
        assert AsTrees(kids.slots)[i] == Nil;
      }
    }
  }

  // ---------- What hangs below a node ----------

  ghost function KidNodes(kids: Table<Image>): set<TrieNode> {
    set i, n | 0 <= i < |kids.slots| && n in Nodes(kids.slots[i]) :: n
  }

  ghost predicate Family(kids: Table<Image>)
    reads KidNodes(kids)
  {
    && (forall i :: 0 <= i < |kids.slots| ==> Matches(kids.slots[i]) && Separate(kids.slots[i]))
    && (forall i, j :: 0 <= i < j < |kids.slots| ==> Nodes(kids.slots[i]) !! Nodes(kids.slots[j]))
  }

  lemma KidBelow(kids: Table<Image>, i: nat)
    requires i < |kids.slots|
    ensures Nodes(kids.slots[i]) <= KidNodes(kids)
  {
  }

  lemma FamilyOf(im: Image)
    requires im.Cell?
    ensures Nodes(im) == {im.node} + KidNodes(im.kids)
    ensures Matches(im) && Separate(im) <==>
      Holds(im.node, im.refs, im.prefix, im.kids) && Family(im.kids) && im.node !in KidNodes(im.kids)
  {
  }

  // Every slot has one character.
  ghost predicate Charted(kids: Table<Image>) {
    Sized(kids) && (kids.layout.Sparse? ==> Distinct(kids.layout.chars))
  }

  // The character that leads to a slot.
  function CharAt(layout: Layout, k: nat): byte
    requires layout.Sparse? ==> k < |layout.chars|
    requires layout.Dense? ==> layout.min + k <= layout.max
  {
    match layout
    case Sparse(chars) => chars[k]
    case Dense(min, _, _) => min + k
  }

  lemma CharSlot(kids: Table<Image>, k: nat)
    requires Charted(kids) && k < |kids.slots|
    ensures Slot(kids.layout, CharAt(kids.layout, k)) == Some(k)
    ensures At(kids, Null, CharAt(kids.layout, k)) == kids.slots[k]
  {
    if kids.layout.Sparse? { IndexOfUnique(kids.layout.chars, k); }
  }

  lemma SlotChar(kids: Table<Image>, d: byte)
    requires Sized(kids) && Slot(kids.layout, d).Some?
    ensures CharAt(kids.layout, Slot(kids.layout, d).value) == d
  {
  }

  // Children below different characters share no node.
  lemma KidsApart(kids: Table<Image>, d: byte, e: byte)
    requires Charted(kids) && Family(kids) && d != e
    ensures Nodes(At(kids, Null, d)) !! Nodes(At(kids, Null, e))
    ensures Matches(At(kids, Null, d)) && Separate(At(kids, Null, d))
  {
    if Slot(kids.layout, d).Some? { SlotChar(kids, d); }
    if Slot(kids.layout, e).Some? { SlotChar(kids, e); }
  }

  // A table that differs in the child below c only.
  lemma FamilyChange(was: Table<Image>, kids: Table<Image>, c: byte, x: Image)
    requires Charted(was) && Charted(kids)
    requires Family(was) && Matches(x) && Separate(x) && Nodes(x) !! KidNodes(was)
    requires forall d: byte :: At(kids, Null, d) == if d == c then x else At(was, Null, d)
    ensures Family(kids) && KidNodes(kids) <= KidNodes(was) + Nodes(x)
  {
    forall d: byte ensures Nodes(At(was, Null, d)) <= KidNodes(was) {
      if Slot(was.layout, d).Some? { KidBelow(was, Slot(was.layout, d).value); }
    }
    forall k | 0 <= k < |kids.slots|
      ensures Matches(kids.slots[k]) && Separate(kids.slots[k])
      ensures Nodes(kids.slots[k]) <= KidNodes(was) + Nodes(x)
    {
      CharSlot(kids, k);
      var d := CharAt(kids.layout, k);
      KidsApart(was, d, if d == 0 then 1 else 0);
    }
    forall j, k | 0 <= j < k < |kids.slots|
      ensures Nodes(kids.slots[j]) !! Nodes(kids.slots[k])
    {
      CharSlot(kids, j);
      CharSlot(kids, k);
      KidsApart(was, CharAt(kids.layout, j), CharAt(kids.layout, k));
    }
  }

  // Storing the new child once there is room for it.
  lemma GrowStore<T>(t: Table<T>, nil: T, c: byte, x: T)
    requires ChildTable.Valid(t, nil) && At(t, nil, c) == nil
    ensures var g := Grow(t, nil, c, nil);
      && Slot(g.layout, c).Some? && Slot(g.layout, c).value < |g.slots|
      && Grow(t, nil, c, x) == g.(slots := g.slots[Slot(g.layout, c).value := x])
  {
    match t.layout
    case Sparse(chars) =>
      RangeBounds(chars, c);
      if |chars| < SPARSE_MAX {
        assert c !in chars;
        IndexOfAppend(chars, c, c);
        assert (t.slots + [nil])[|chars| := x] == t.slots + [x];
      }
    case Dense(min, max, _) =>
      if c < min {
        var gap := seq(min - c - 1, _ => nil);
        assert ([nil] + gap + t.slots)[0 := x] == [x] + gap + t.slots;
      } else if c > max {
        var gap := seq(c - max - 1, _ => nil);
        assert (t.slots + gap + [nil])[c - min := x] == t.slots + gap + [x];
      }
  }
}

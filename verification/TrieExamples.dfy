/** Inputs on which the trie of src/protocols/pubsub/trie.c departs from what it is for, each
    reached from the empty trie by subscriptions alone. */
module TrieExamples {
  import opened Bytes
  import opened ChildTable
  import opened TrieTree
  import opened TrieSubscribe
  import opened TrieUnsubscribe
  import opened TrieMatch

  // The run ends in the trie.
  ghost predicate Reached(ops: seq<Op>, t: Tree) {
    (forall op :: op in ops ==> op.Sub?) && Outlives(Nil, ops) == Some(t)
  }

  lemma {:induction false} OutlivesOne(t: Tree, ops: seq<Op>, op: Op, u: Tree)
    requires TrieTree.Valid(t) && Outlives(t, ops) == Some(u) && TrieTree.Valid(u)
    requires Apply(u, op).Done? && TrieTree.Valid(Apply(u, op).tree)
    ensures Outlives(t, ops + [op]) == Some(Apply(u, op).tree)
    decreases |ops|
  {
    hide Apply, TrieTree.Valid;
    if ops == [] {
      assert [] + [op] == [op];
    } else {
      assert (ops + [op])[1..] == ops[1..] + [op];
      OutlivesOne(Apply(t, ops[0]).tree, ops[1..], op, u);
    }
  }

  lemma ReachOne(ops: seq<Op>, t: Tree, data: seq<byte>)
    requires TrieTree.Valid(t) && Reached(ops, t)
    ensures TrieTree.Valid(Subscribe(t, data)) && Reached(ops + [Sub(data)], Subscribe(t, data))
  {
    hide Subscribe, TrieTree.Valid, Count, Shaped;
    SubscribeCount(t, data, data);
    NilIsValid();
    OutlivesOne(Nil, ops, Sub(data), t);
  }

  lemma ReachNone()
    ensures TrieTree.Valid(Nil) && Reached([], Nil)
  {
  }

  // ---------- Nodes with many leaves ----------

  function Leaf(): Tree { Chain([]) }

  lemma LeafIs()
    ensures Leaf() == Node(1, [], Table(Sparse([]), []))
    ensures TrieTree.Valid(Leaf())
  {
  }

  function Chars(n: nat): seq<byte>
    requires n <= 8
  {
    seq(n, i requires 0 <= i < n => i)
  }

  // The root with leaves for the first n characters.
  function Flat(n: nat): Tree
    requires n <= 8
  {
    Node(1, [], Table(Sparse(Chars(n)), seq(n, _ => Leaf())))
  }

  lemma {:induction false} NotIn(chars: seq<byte>, c: byte)
    requires c !in chars
    ensures IndexOf(chars, c) == |chars|
  {
    if chars != [] { NotIn(chars[1..], c); }
  }

  lemma FlatValid(n: nat)
    requires n <= 8
    ensures TrieTree.Valid(Flat(n)) && Sized(Flat(n).kids)
  {
    LeafIs();
    assert forall k :: k in Flat(n).kids.slots ==> k == Leaf();
  }

  lemma SubscribeNew(t: Tree, c: byte)
    requires TrieTree.Valid(t) && t.Node? && t.prefix == [] && Sized(t.kids)
    requires Slot(t.kids.layout, c) == None
    ensures Subscribe(t, [c]) == Branch(t, c, Leaf())
  {
    assert [c][0..] == [c] && [c][1..] == [];
  }

  lemma FlatGrows(n: nat)
    requires n < 8
    ensures TrieTree.Valid(Flat(n)) && Subscribe(Flat(n), [n]) == Flat(n + 1)
  {
    hide Subscribe, Chain, TrieTree.Valid;
    FlatValid(n);
    NotIn(Chars(n), n);
    SubscribeNew(Flat(n), n);
    assert Chars(n) + [n] == Chars(n + 1);
    assert seq(n, _ => Leaf()) + [Leaf()] == seq(n + 1, _ => Leaf());
  }

  lemma {:induction false} FlatReached(n: nat) returns (ops: seq<Op>)
    requires n <= 8
    ensures TrieTree.Valid(Flat(n)) && Reached(ops, Flat(n))
  {
    hide Subscribe, TrieTree.Valid, Reached;
    FlatValid(n);
    if n == 0 {
      ReachNone();
      ReachOne([], Nil, []);
      FlatZero();
      ops := [] + [Sub([])];
    } else {
      ops := FlatReached(n - 1);
      FlatGrows(n - 1);
      ReachOne(ops, Flat(n - 1), [n - 1]);
      ops := ops + [Sub([n - 1])];
    }
  }

  lemma FlatZero()
    ensures TrieTree.Valid(Nil) && Subscribe(Nil, []) == Flat(0)
  {
    LeafIs();
    assert Chars(0) == [];
  }

  // The children after the ninth character c, in a dense array.
  function Nine(c: byte): Table<Tree>
    requires c == 8 || c == 9
  {
    Table(Dense(0, c, 9), seq(c + 1, d => if d == 8 && c == 9 then Nil else Leaf()))
  }

  // The root loses its count on the way.
  function Dense9(c: byte): Tree
    requires c == 8 || c == 9
  {
    Node(0, [], Nine(c))
  }

  function Counted9(): Tree { Node(1, [], Nine(8)) }

  lemma FlatFull(c: byte)
    requires c == 8 || c == 9
    ensures TrieTree.Valid(Flat(8)) && Subscribe(Flat(8), [c]) == Dense9(c)
  {
    hide Subscribe, Chain, TrieTree.Valid, Spread, Lowest, Highest;
    FlatValid(8);
    NotIn(Chars(8), c);
    SubscribeNew(Flat(8), c);
    FullRange(c);
    FullSpread(c);
  }

  lemma FullRange(c: byte)
    requires c == 8 || c == 9
    ensures Min(Lowest(Chars(8), 255), c) == 0 && Max(Highest(Chars(8), 0), c) == c
  {
    LowestBounds(Chars(8), 255);
    HighestBounds(Chars(8), 0);
    RangeBounds(Chars(8), c);
    assert Chars(8)[0] == 0;
  }

  lemma FullSpread(c: byte)
    requires c == 8 || c == 9
    ensures Spread(Chars(8), seq(8, _ => Leaf()), Nil, 0, c)[c := Leaf()] == Nine(c).slots
  {
    hide Chain;
    var s := Spread(Chars(8), seq(8, _ => Leaf()), Nil, 0, c);
    forall d: byte | d <= c ensures s[d] == if d < 8 then Leaf() else Nil {
      if d < 8 { assert Chars(8)[d] == d; IndexAt(d); } else { NotIn(Chars(8), d); }
    }
  }

  lemma IndexAt(d: byte)
    requires d < 8
    ensures IndexOf(Chars(8), d) == d
  {
    assert Chars(8)[IndexOf(Chars(8), d)] == d by { assert Chars(8)[d] == d; }
  }

  // ---------- Lost counts ----------

  /** Eight branches below the counted string "", and a ninth: subscribing to it loses the
      count of "" (trie.c:384). */
  lemma LossHappens() returns (ops: seq<Op>, t: Tree)
    ensures TrieTree.Valid(t) && Reached(ops, t)
    ensures Shaped(t) && Shaped(Subscribe(t, [8]))
    ensures Count(t, []) == 1 && Count(Subscribe(t, [8]), []) == 0
  {
    hide Subscribe, Chain, TrieTree.Valid, Reached;
    ops := FlatReached(8);
    t := Flat(8);
    ValidIsShaped(t);
    FlatFull(8);
    SubscribeCount(t, [8], []);
    CountHere(t, []);
    CountHere(Dense9(8), []);
  }

  // Nine branches below a counted string.
  lemma NineReached() returns (ops: seq<Op>)
    ensures TrieTree.Valid(Counted9()) && Reached(ops, Counted9())
  {
    hide Subscribe, TrieTree.Valid, Reached;
    ops := FlatReached(8);
    FlatFull(8);
    ReachOne(ops, Flat(8), [8]);
    ReachOne(ops + [Sub([8])], Dense9(8), []);
    SubscribeRoot(Dense9(8));
    ops := ops + [Sub([8])] + [Sub([])];
  }

  lemma SubscribeRoot(t: Tree)
    requires TrieTree.Valid(t) && t.Node? && t.prefix == []
    ensures Subscribe(t, []) == t.(refs := t.refs + 1)
  {
  }

  /** Nine branches below the counted string "": unsubscribing from the ninth loses the count
      of "" (trie.c:609). */
  lemma DropHappens() returns (ops: seq<Op>, t: Tree)
    ensures TrieTree.Valid(t) && Reached(ops, t)
    ensures Shaped(t) && Count(t, []) == 1 && Count(t, [8]) == 1
    ensures var r := Unsubscribe(t, [8]); r.Done? && Shaped(r.tree) && Count(r.tree, []) == 0
  {
    hide Unsubscribe, TrieTree.Valid, Reached, Count, Shaped, Chain, Dropped, Counted9;
    ops := NineReached();
    t := Counted9();
    ValidIsShaped(t);
    NineCounts(t);
    UnsubscribeCount(t, [8], []);
    DropsRoot(t);
  }

  lemma LeafCount()
    ensures Shaped(Leaf()) && TrieTree.Valid(Leaf()) && Count(Leaf(), []) == 1
    ensures Unsubscribe(Leaf(), []) == Done(1, Nil)
  {
    ChainCount([], []);
  }

  lemma NineChild(t: Tree)
    requires t == Counted9()
    ensures t.Node? && t.prefix == [] && t.refs == 1 && Sized(t.kids) && Child(t, 8) == Leaf() && Thins(t.kids)
  {
    hide Chain;
    assert t.kids.slots[8] == Leaf();
  }

  lemma NineCounts(t: Tree)
    requires t == Counted9() && Shaped(t)
    ensures Count(t, []) == 1 && Count(t, [8]) == 1
  {
    hide Count, Shaped, Chain, Nine, Child;
    NineChild(t);
    LeafCount();
    CountHere(t, []);
    CountHere(t, [8]);
    assert [8][1..] == [];
  }

  lemma DropsRoot(t: Tree)
    requires TrieTree.Valid(t) && t == Counted9()
    ensures Dropped(t, [8]) == Some([])
  {
    hide Unsubscribe, Chain, Nine, Child, Dropped, TrieTree.Valid, Leaf;
    NineChild(t);
    LeafCount();
    LeafIs();
    assert [8][1..] == [];
    DroppedDeeper(t, [8]);
  }

  // ---------- Strings that are not subscribed to ----------

  /** With only [1, 2] subscribed to, unsubscribing from the empty string takes [1, 2] away. */
  lemma WrongStringHit()
    ensures var t := Subscribe(Nil, [1, 2]);
      && Reached([Sub([1, 2])], t) && Shaped(t) && Count(t, []) == 0 && Count(t, [1, 2]) == 1
      && Unsubscribe(t, []) == Done(1, Nil)
  {
    ReachNone();
    ReachOne([], Nil, [1, 2]);
    assert [] + [Sub([1, 2])] == [Sub([1, 2])];
    ChainCount([1, 2], []);
    ChainCount([1, 2], [1, 2]);
  }

  // A dense array with ten children and a hole.
  function Holed(): Tree {
    Node(0, [], Table(Dense(0, 10, 10), seq(11, d => if d == 8 then Nil else Leaf())))
  }

  lemma HoledReached() returns (ops: seq<Op>)
    ensures TrieTree.Valid(Holed()) && Reached(ops, Holed())
  {
    hide Subscribe, TrieTree.Valid, Reached, Chain;
    ops := FlatReached(8);
    FlatFull(9);
    ReachOne(ops, Flat(8), [9]);
    ReachOne(ops + [Sub([9])], Dense9(9), [10]);
    SubscribeNew(Dense9(9), 10);
    assert seq(10, d => if d == 8 then Nil else Leaf()) + [Leaf()] == Holed().kids.slots;
    assert Nine(9).slots + seq(0, _ => Nil) + [Leaf()] == Holed().kids.slots;
    ops := ops + [Sub([9])] + [Sub([10])];
  }

  /** A dense array with ten children and a hole, and the string of the hole: the trie ceases
      to be well formed. */
  lemma HoleMiscounted() returns (ops: seq<Op>, t: Tree)
    ensures TrieTree.Valid(t) && Reached(ops, t) && Shaped(t) && Count(t, [8]) == 0
    ensures Unsubscribe(t, [8]).Done? && !TrieTree.Valid(Unsubscribe(t, [8]).tree)
  {
    hide Subscribe, TrieTree.Valid, Reached, Chain, Unsubscribe, Shaped, Count, Deeper;
    ops := HoledReached();
    t := Holed();
    ValidIsShaped(t);
    CountHere(t, [8]);
    CountNil([]);
    UnsubscribeStep(t, [8]);
    assert [8][1..] == [];
    DeeperHole(t, 8, 8);
  }

  // The data end in an empty slot of a dense array with more than nine children.
  lemma DeeperHole(t: Tree, i: nat, c: byte)
    requires TrieTree.Valid(t) && t.Node? && Slot(t.kids.layout, c) == Some(i) && t.kids.slots[i] == Nil
    requires t.kids.layout.Dense? && t.kids.layout.nbr > SPARSE_MAX + 1
    ensures Deeper(t, i, c, []).Done? && !TrieTree.Valid(Deeper(t, i, c, []).tree)
  {
    ShrinkHole(t.kids, Nil, i, c);
  }

  /** The same array and a longer string through the hole: the null pointer is followed, as
      it is in the empty trie. */
  lemma NullFollowed() returns (ops: seq<Op>, t: Tree)
    ensures TrieTree.Valid(t) && Reached(ops, t) && Shaped(t) && Count(t, [8, 1]) == 0
    ensures Unsubscribe(t, [8, 1]) == Fault
    ensures TrieTree.Valid(Nil) && Unsubscribe(Nil, [1]) == Fault
  {
    hide Subscribe, TrieTree.Valid, Reached, Chain, Unsubscribe, Shaped, Count;
    ops := HoledReached();
    t := Holed();
    ValidIsShaped(t);
    CountHere(t, [8, 1]);
    CountNil([1]);
    UnsubscribeStep(t, [8, 1]);
    assert [8, 1][1..] == [1];
    NilFaults();
  }

  lemma NilFaults()
    ensures TrieTree.Valid(Nil) && Unsubscribe(Nil, [1]) == Fault
  {
  }

  // ---------- Reading past the end ----------

  /** With [1, 2] and [1, 3] subscribed to, the message [1] is taken for a match when the byte
      behind it happens to be 2 (trie.c:467). */
  lemma OverreadHappens(mem: nat -> byte) returns (t: Tree)
    requires mem(0) == 1 && mem(1) == 2
    ensures TrieTree.Valid(t) && Reached([Sub([1, 2]), Sub([1, 3])], t) && Shaped(t)
    ensures !Wanted(t, Message(mem, 0, 1)) && MatchFrom(t, mem, 0, 1)
  {
    hide Reached;
    var u := Subscribe(Nil, [1, 2]);
    ReachNone();
    ReachOne([], Nil, [1, 2]);
    ReachOne([] + [Sub([1, 2])], u, [1, 3]);
    assert [] + [Sub([1, 2])] + [Sub([1, 3])] == [Sub([1, 2]), Sub([1, 3])];
    t := Subscribe(u, [1, 3]);
    ForkIs();
    ForkMatches(mem);
  }

  function Forked(): Table<Tree> { Table(Sparse([2, 3]), [Leaf(), Leaf()]) }

  function Fork(): Tree { Node(0, [1], Forked()) }

  lemma ForkIs()
    ensures TrieTree.Valid(Subscribe(Nil, [1, 2]))
    ensures Subscribe(Subscribe(Nil, [1, 2]), [1, 3]) == Fork()
  {
    hide Subscribe, Common, TrieTree.Valid;
    FirstIs();
    LeafIs();
    var u := Node(1, [1, 2], Table(Sparse([]), []));
    assert Common([1, 2], [1, 3]) == 1 by { OneCommon(); }
    assert [1, 2][..1] == [1] && [1, 2][2..] == [] && [1, 3][1..] == [3] && [3][1..] == [];
    SubscribeSplitIs(u, [1, 3]);
    assert Split(u, 1) == Node(0, [1], Sole(2, Leaf()));
    assert IndexOf([2], 3) == 1;
    assert [2] + [3] == [2, 3] && [Leaf()] + [Leaf()] == [Leaf(), Leaf()];
    assert Sole(2, Leaf()) == Table(Sparse([2]), [Leaf()]);
    assert Grow(Sole(2, Leaf()), Nil, 3, Leaf()) == Forked();
    assert Branch(Split(u, 1), 3, Leaf()) == Fork();
  }

  lemma FirstIs()
    ensures TrieTree.Valid(Nil)
    ensures var u := Node(1, [1, 2], Table(Sparse([]), [])); TrieTree.Valid(u) && Subscribe(Nil, [1, 2]) == u
  {
  }

  lemma OneCommon()
    ensures Common([1, 2], [1, 3]) == 1
  {
    assert [1, 2][1..] == [2] && [1, 3][1..] == [3];
  }

  lemma ForkMatches(mem: nat -> byte)
    requires mem(0) == 1 && mem(1) == 2
    ensures Shaped(Fork()) && !Wanted(Fork(), Message(mem, 0, 1)) && MatchFrom(Fork(), mem, 0, 1)
  {
    hide Wanted, Chain, Shaped, Child;
    ForkChild();
    assert PrefixHere(Fork().prefix, mem, 0, 1) && mem(0 + |Fork().prefix|) == 2;
    assert MatchFrom(Leaf(), mem, 2, -1);
    WantedStep(Fork(), mem, 0, 1);
  }

  lemma ForkChild()
    ensures Shaped(Fork()) && Shaped(Leaf()) && Leaf() == Node(1, [], Table(Sparse([]), []))
    ensures Child(Fork(), 2) == Leaf()
  {
    LeafIs();
    assert IndexOf([2, 3], 2) == 0;
  }

  // ---------- A wrong answer ----------

  // The same node below a counted root.
  function Below(): Tree { Node(0, [], Forked()) }

  function Topped(): Tree { Node(1, [], Sole(1, Below())) }

  lemma ToppedReached()
    ensures TrieTree.Valid(Topped()) && Reached([Sub([1, 2]), Sub([1, 3]), Sub([])], Topped())
  {
    hide Reached, Subscribe, Chain;
    ReachNone();
    FirstIs();
    ForkIs();
    ReachOne([], Nil, [1, 2]);
    ReachOne([] + [Sub([1, 2])], Subscribe(Nil, [1, 2]), [1, 3]);
    ReachOne([] + [Sub([1, 2])] + [Sub([1, 3])], Fork(), []);
    assert [] + [Sub([1, 2])] + [Sub([1, 3])] + [Sub([])] == [Sub([1, 2]), Sub([1, 3]), Sub([])];
    ToppedIs();
  }

  lemma ToppedIs()
    requires TrieTree.Valid(Fork())
    ensures Subscribe(Fork(), []) == Topped()
  {
    hide Chain;
    assert [1][1..] == [] && [1][..0] == [];
    assert Common([1], []) == 0;
    assert Split(Fork(), 0) == Node(0, [], Sole(1, Below()));
  }

  /** With [], [1, 2] and [1, 3] subscribed to, unsubscribing from [1] removes nothing and
      answers 1, which is to say that the string was removed (trie.h:103-105). */
  lemma NothingRemoved() returns (t: Tree)
    ensures TrieTree.Valid(t) && Reached([Sub([1, 2]), Sub([1, 3]), Sub([])], t) && Shaped(t)
    ensures Count(t, [1]) == 0 && Unsubscribe(t, [1]) == Done(1, t)
  {
    hide Reached, Subscribe, Chain, TrieTree.Valid, Unsubscribe;
    ToppedReached();
    t := Topped();
    ValidIsShaped(t);
    UnsubscribeStep(t, [1]);
    assert [1][1..] == [];
    assert IndexOf([1], 1) == 0;
    BelowFound();
    assert t.kids.slots[0 := Below()] == t.kids.slots;
  }

  lemma BelowFound()
    ensures TrieTree.Valid(Below()) && Unsubscribe(Below(), []) == Done(-EINVAL, Below())
  {
    hide Chain;
    LeafIs();
    assert IndexOf([2, 3], 2) == 0;
  }
}

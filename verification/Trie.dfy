/** struct grid_trie: the entry points of src/protocols/pubsub/trie.c. */
module Trie {
  import opened Bytes
  import opened ChildTable
  import opened TrieTree
  import opened TrieMemory
  import opened TrieHeap
  import TrieNodes
  import TrieSubscribe
  import TrieUnsubscribe

  // Steps 2 to 5 of grid_trie_subscribe at the node where the walk ended.
  method SubscribeHere(self: TrieNode, pos: nat, rest: seq<byte>, ghost data: seq<byte>,
      ghost im: Image, ghost repr: set<TrieNode>)
    returns (rc: int, n: TrieNode, ghost im': Image)
    requires Sound(im) && im.Cell? && im.node == self && repr == Nodes(im)
    requires TrieTree.Valid(AsTree(im))
    requires pos == Common(self.prefix, data) && rest == data[pos..]
    requires pos == |self.prefix| && rest != [] ==> Child(AsTree(im), rest[0]) == Nil
    modifies repr
    ensures Sound(im') && Addr(im') == n
    ensures forall x :: x in Nodes(im') && x !in repr ==> fresh(x)
    ensures AsTree(im') == TrieTree.Subscribe(AsTree(im), data)
    ensures rc == SubscribeResult(AsTree(im), data)
  {
    hide Matches, Separate, Family, Nodes, KidNodes, AsTrees, Branch, Split, Chain, Grow;
    CellFacts(im);
    ImageTable(im);
    ghost var t := AsTree(im);
    SubscribeCases(t, data);
    n, im' := self, im;
    if pos < |self.prefix| {
      SplitFacts(im, pos);
      n, im' := SplitNode(self, pos, im, repr);
      ghost var split := Nodes(im');
      if rest == [] {
        im' := CountHere(n, im');
        assert AsTree(im') == TrieTree.Subscribe(t, data);
      } else {
        SplitRoom(t, pos, rest[0], im');
        n, im' := AddBranch(n, rest[0], rest[1..], im', split);
        assert AsTree(im') == TrieTree.Subscribe(t, data);
      }
      rc := 1;
    } else if rest == [] {
      im' := CountHere(n, im');
      rc := if n.refcount == 1 then 1 else 0;
      assert AsTree(im') == TrieTree.Subscribe(t, data);
    } else {
      n, im' := AddBranch(n, rest[0], rest[1..], im', repr);
      rc := 1;
      assert AsTree(im') == TrieTree.Subscribe(t, data);
    }
  }

  lemma SubscribeCases(t: Tree, data: seq<byte>)
    requires TrieTree.Valid(t) && t.Node?
    ensures var pos := Common(t.prefix, data); var rest := data[pos..];
      && (pos < |t.prefix| ==>
           && Sized(t.kids) && (t.kids.layout.Sparse? ==> Nil !in t.kids.slots)
           && Split(t, pos).Node? && Split(t, pos).refs == 0 && Sized(Split(t, pos).kids)
           && SubscribeResult(t, data) == 1
           && TrieTree.Subscribe(t, data) ==
                if rest == [] then Split(t, pos).(refs := 1)
                else Branch(Split(t, pos), rest[0], Chain(rest[1..])))
      && (pos == |t.prefix| && rest == [] ==>
           && TrieTree.Subscribe(t, data) == t.(refs := t.refs + 1)
           && SubscribeResult(t, data) == if t.refs + 1 == 1 then 1 else 0)
      && (pos == |t.prefix| && rest != [] && Child(t, rest[0]) == Nil ==>
           && TrieTree.Subscribe(t, data) == Branch(t, rest[0], Chain(rest[1..]))
           && SubscribeResult(t, data) == 1)
  {
  }

  // Step 5: create the subscription as such.
  method CountHere(n: TrieNode, ghost im: Image) returns (ghost im': Image)
    requires Sound(im) && im.Cell? && im.node == n
    modifies n
    ensures Sound(im') && im'.Cell? && im'.node == n && Nodes(im') == Nodes(im)
    ensures AsTree(im).Node? && AsTree(im').Node? && n.refcount == im.refs + 1 == AsTree(im).refs + 1
    ensures AsTree(im') == AsTree(im).(refs := AsTree(im).refs + 1)
  {
    FamilyOf(im);
    n.refcount := n.refcount + 1;
    im' := im.(refs := im.refs + 1);
    Relabel(im, im'.refs, im.prefix);
  }

  lemma ImageTable(im: Image)
    requires im.Cell? && TrieTree.Valid(AsTree(im))
    ensures ChildTable.Valid(im.kids, Null) && Full(im) && Sized(im.kids)
    ensures AsTree(im).kids.layout == im.kids.layout && |AsTree(im).kids.slots| == |im.kids.slots|
    ensures forall d: byte :: Child(AsTree(im), d) == AsTree(At(im.kids, Null, d))
  {
    ValidImages(im.kids);
  }

  lemma SplitFacts(im: Image, pos: nat)
    requires im.Cell? && TrieTree.Valid(AsTree(im)) && pos < |im.prefix|
    ensures Sized(AsTree(im).kids) && (im.kids.layout.Sparse? ==> Nil !in AsTree(im).kids.slots)
  {
  }

  // After a split there is one branch, and it is not the one the data take.
  lemma SplitRoom(t: Tree, pos: nat, c: byte, im: Image)
    requires TrieTree.Valid(t) && t.Node? && pos < |t.prefix| && t.prefix[pos] != c
    requires AsTree(im) == Split(t, pos)
    ensures im.Cell? && ChildTable.Valid(im.kids, Null) && At(im.kids, Null, c) == Null
    ensures Branch(Split(t, pos), c, Nil).refs == 0
  {
    TrieSubscribe.SplitCount(t, pos, []);
    ValidImages(im.kids);
    assert IndexOf([t.prefix[pos]], c) == 1;
  }

  // Before the first step.
  lemma AtRoot(im: Image, data: seq<byte>)
    requires Sound(im) && TrieTree.Valid(AsTree(im))
    ensures Matches(im) && GoodPath(im, []) && Reach(im, []) == im
    ensures GraftTree(im, [], TrieTree.Subscribe(AsTree(im), data)) == TrieTree.Subscribe(AsTree(im), data)
  {
  }

  // What the walk sees at a node.
  lemma WalkFacts(im: Image)
    requires Matches(im) && im.Cell? && TrieTree.Valid(AsTree(im))
    ensures var t := AsTree(im); var n := im.node;
      && t.Node? && Sized(t.kids)
      && n.refcount == t.refs && n.prefix == t.prefix && n.layout == t.kids.layout
      && |n.child| == |t.kids.slots| == |im.kids.slots|
      && (forall i :: 0 <= i < |n.child| ==>
           && n.child[i] == Addr(im.kids.slots[i]) && Matches(im.kids.slots[i])
           && t.kids.slots[i] == AsTree(im.kids.slots[i])
           && (n.child[i] == null <==> t.kids.slots[i] == Nil))
  {
  }

  // Where a character leads.
  lemma SlotFacts(t: Tree, c: byte)
    requires t.Node? && Sized(t.kids)
    ensures var slot := Slot(t.kids.layout, c);
      && (slot.Some? ==> slot.value < |t.kids.slots| && Child(t, c) == t.kids.slots[slot.value])
      && (slot.None? ==> Child(t, c) == Nil)
  {
  }

  lemma NullSubscribes(data: seq<byte>)
    ensures AsTree(Null) == Nil
    ensures TrieTree.Subscribe(Nil, data) == Chain(data) && SubscribeResult(Nil, data) == 1
  {
  }

  // Hanging the new part in at the end of the path.
  lemma HangIn(im: Image, path: seq<nat>, sub: Image)
    requires GoodPath(im, path) && Separate(im) && Sound(sub)
    requires path != [] ==> Rim(im, path) && HoldsBut(Parent(im, path), path[|path| - 1], Addr(sub))
    requires forall x :: x in Nodes(sub) && x in Nodes(im) ==> x in Nodes(Reach(im, path))
    ensures var g := Graft(im, path, sub);
      && Sound(g)
      && Nodes(g) == (Nodes(im) - Nodes(Reach(im, path))) + Nodes(sub)
      && Addr(g) == (if path == [] then Addr(sub) else Addr(im))
      && AsTree(g) == GraftTree(im, path, AsTree(sub))
  {
    if path != [] {
      RimHooked(im, path, Addr(sub));
    }
    Splice(im, path, sub);
    GraftAsTree(im, path, sub);
  }

  lemma StepInvariant(im: Image, path: seq<nat>, i: nat, data: seq<byte>, all: seq<byte>)
    requires GoodPath(im, path) && Reach(im, path).Cell?
    requires TrieTree.Valid(AsTree(im)) && TrieTree.Valid(AsTree(Reach(im, path)))
    requires var t := AsTree(Reach(im, path));
      && t.prefix <= data && |data| > |t.prefix|
      && Slot(t.kids.layout, data[|t.prefix|]) == Some(i) && i < |t.kids.slots| && t.kids.slots[i] != Nil
      && GraftTree(im, path, TrieTree.Subscribe(t, data)) == TrieTree.Subscribe(AsTree(im), all)
      && SubscribeResult(t, data) == SubscribeResult(AsTree(im), all)
    ensures GoodPath(im, path + [i])
    ensures var u := AsTree(Reach(im, path + [i])); var rest := data[|AsTree(Reach(im, path)).prefix| + 1..];
      && u == AsTree(Reach(im, path)).kids.slots[i] && TrieTree.Valid(u)
      && GraftTree(im, path + [i], TrieTree.Subscribe(u, rest)) == TrieTree.Subscribe(AsTree(im), all)
      && SubscribeResult(u, rest) == SubscribeResult(AsTree(im), all)
  {
    var t := AsTree(Reach(im, path));
    var rest := data[|t.prefix| + 1..];
    ReachStep(im, path, i);
    assert t.kids.slots[i] in t.kids.slots;
    TrieSubscribe.SubscribeStep(t, data);
    TrieSubscribe.CommonPrefix(t.prefix, data);
    assert data[|t.prefix|..][0] == data[|t.prefix|] && data[|t.prefix|..][1..] == rest;
    GraftTreeStep(im, path, i, TrieTree.Subscribe(t.kids.slots[i], rest));
  }

  // ---------- grid_node_unsubscribe ----------

  // The `found` label: drop one subscriber of this node.
  method FoundNode(self: TrieNode?, ghost im: Image, ghost repr: set<TrieNode>)
    returns (rc: int, n: TrieNode?, ghost im': Image)
    requires Sound(im) && Addr(im) == self && repr == Nodes(im) && TrieTree.Valid(AsTree(im))
    modifies repr
    ensures Sound(im') && Addr(im') == n && Nodes(im') <= repr
    ensures Found(AsTree(im)) == Done(rc, AsTree(im'))
  {
    hide Matches, Separate, Family, Nodes, KidNodes, AsTree, AsTrees, TrieTree.Valid, TrieTree.Compact;
    NoImage();
    n, im' := self, im;
    if self == null {
      return -EINVAL, n, im';
    }
    CellFacts(im);
    FoundFacts(im);
    if self.refcount == 0 {
      return -EINVAL, n, im';
    }
    FamilyOf(im);
    self.refcount := self.refcount - 1;
    ghost var less := im.(refs := im.refs - 1);
    Relabel(im, less.refs, im.prefix);
    if self.refcount != 0 {
      return 0, n, less;
    }
    if |self.child| == 0 {
      return 1, null, Null;
    }
    rc := 1;
    n, im' := TrieHeap.Compact(self, less);
  }

  lemma NoImage()
    ensures AsTree(Null) == Nil && Sound(Null) && Nodes(Null) == {}
    ensures TrieTree.Valid(Nil)
  {
  }

  lemma FoundFacts(im: Image)
    requires im.Cell? && TrieTree.Valid(AsTree(im))
    ensures AsTree(im).Node? && AsTree(im).refs == im.refs && Full(im)
    ensures AsTree(im).kids.slots == [] <==> im.kids.slots == []
    ensures Sized(AsTree(im).kids) && (im.kids.layout.Sparse? ==> Nil !in AsTree(im).kids.slots)
    ensures AsTree(im).kids.layout == im.kids.layout
    ensures im.refs > 0 ==>
      var less := im.(refs := im.refs - 1);
      AsTree(less) == AsTree(im).(refs := im.refs - 1) && Full(less)
  {
  }

  // The child below c is gone and its slot is NULL: take the slot out of the array, then
  // delete or compact the node.
  method PruneNode(self: TrieNode, c: byte, ghost i: nat, ghost t: Tree, ghost im: Image,
      ghost repr: set<TrieNode>)
    returns (n: TrieNode?, ghost im': Image)
    requires Sound(im) && im.Cell? && im.node == self && repr == Nodes(im)
    requires Emptied(t, i, c, im) && Prune(t, i, c).Done?
    modifies repr
    ensures Sound(im') && Addr(im') == n
    ensures forall x :: x in Nodes(im') && x !in repr ==> fresh(x)
    ensures Prune(t, i, c) == Done(1, AsTree(im'))
  {
    hide Matches, Separate, Family, Nodes, KidNodes, AsTree, AsTrees, TrieTree.Valid, TrieTree.Compact,
      ChildTable.Valid, Shrink, Prune, Emptied, Live, Gather;
    NoImage();
    CellFacts(im);
    FamilyOf(im);
    EmptiedFacts(t, i, c, im);
    ghost var kids := Shrink(im.kids, Null, i, c).value;
    if self.layout.Sparse? {
      PruneSparse(t, i, c, im, self);
      TrieNodes.RemoveSparse(self, c, i);
      FamilyChange(im.kids, kids, c, Null);
      im' := Cell(self, im.refs, im.prefix, kids);
      FamilyOf(im');
      if |self.child| == 0 && self.refcount == 0 {
        n, im' := null, Null;
      } else {
        n, im' := TrieHeap.Compact(self, im');
      }
    } else if self.layout.nbr > SPARSE_MAX + 1 {
      PruneDense(t, i, c, im, self);
      TrieNodes.TrimDense(self, c, i);
      FamilyChange(im.kids, kids, c, Null);
      n, im' := self, Cell(self, im.refs, im.prefix, kids);
      FamilyOf(im');
    } else {
      n := TrieNodes.DenseToSparse(self, c, i);
      PruneDense(t, i, c, im, n);
      FamilyChange(im.kids, kids, c, Null);
      im' := Cell(n, 0, im.prefix, kids);
      FamilyOf(im');
    }
  }

  // The image is that of t but for the slot i, which is empty.
  ghost predicate Emptied(t: Tree, i: nat, c: byte, im: Image) {
    && t.Node? && TrieTree.Valid(t) && im.Cell?
    && Slot(t.kids.layout, c) == Some(i) && i < |im.kids.slots| && im.kids.slots[i] == Null
    && im.refs == t.refs && im.prefix == t.prefix && im.kids.layout == t.kids.layout
    && AsTrees(im.kids.slots) == t.kids.slots[i := Nil]
  }

  lemma ShrinkIgnores<T>(t: Table<T>, nil: T, i: nat, c: byte)
    requires Sized(t) && i < |t.slots|
    ensures Shrink(t, nil, i, c) == Shrink(t.(slots := t.slots[i := nil]), nil, i, c)
  {
    if t.layout.Sparse? {
      assert t.slots[i := nil][..i] == t.slots[..i] && t.slots[i := nil][i + 1..] == t.slots[i + 1..];
    } else {
      assert t.slots[i := nil][i := nil] == t.slots[i := nil];
    }
  }

  lemma ImagesKeepNil(kids: Table<Image>)
    ensures KeepsNil(AsTree, kids.slots, Null) && KeepsNil(Addr, kids.slots, Null)
  {
  }

  lemma EmptiedTables(t: Tree, i: nat, c: byte, im: Image)
    requires Emptied(t, i, c, im)
    ensures Sized(im.kids) && Sized(t.kids) && i < |t.kids.slots|
    ensures var s := Shrink(im.kids, Null, i, c); var a := Table(im.kids.layout, Addrs(im.kids.slots));
      && (s.Some? <==> Shrink(t.kids, Nil, i, c).Some?)
      && (s.Some? <==> Shrink(a, null, i, c).Some?)
      && (s.Some? ==>
           && Shrink(t.kids, Nil, i, c).value == Table(s.value.layout, AsTrees(s.value.slots))
           && Shrink(a, null, i, c).value == Table(s.value.layout, Addrs(s.value.slots)))
  {
    ImagesKeepNil(im.kids);
    ShrinkIgnores(t.kids, Nil, i, c);
    TreeTable(im.kids);
    ShrinkMap(AsTree, im.kids, Null, i, c);
    ShrinkMap(Addr, im.kids, Null, i, c);
    if Shrink(im.kids, Null, i, c).Some? {
      TreeTable(Shrink(im.kids, Null, i, c).value);
    }
  }
  // With anything but NULL in the slot, the table of the image is as valid as that of t.
  lemma EmptiedFilled(t: Tree, i: nat, c: byte, im: Image)
    requires Emptied(t, i, c, im) && t.kids.slots[i] != Nil
    ensures ChildTable.Valid(im.kids.(slots := im.kids.slots[i := im]), Null)
  {
    var filled := im.kids.slots[i := im];
    LiveTrees(im.kids.slots);
    LiveUpdate(im.kids.slots, i, im, Null);
    LiveUpdate(t.kids.slots, i, Nil, Nil);
    forall k | 0 <= k < |filled| && k != i ensures filled[k] == Null <==> t.kids.slots[k] == Nil {
      assert AsTrees(im.kids.slots)[k] == t.kids.slots[k];
    }
  }

  // What the smaller table has below each character.
  ghost predicate ShrinksTo(kids: Table<Image>, i: nat, c: byte)
    requires Sized(kids) && i < |kids.slots| && Shrink(kids, Null, i, c).Some?
  {
    var r := Shrink(kids, Null, i, c).value;
    && Charted(r)
    && (forall d: byte :: At(r, Null, d) == if d == c then Null else At(kids, Null, d))
    && (kids.layout.Sparse? ==> r.layout.Sparse? && Null !in r.slots)
  }

  // An empty slot of a valid table is inside a dense array, and the conversion of an
  // array with nine children then fails.
  lemma EmptiedEnds(t: Tree, i: nat, c: byte, im: Image)
    requires Emptied(t, i, c, im) && t.kids.slots[i] == Nil
    requires Sized(im.kids) && Shrink(im.kids, Null, i, c).Some?
    ensures t.kids.layout.Dense? && t.kids.layout.min < c < t.kids.layout.max
    ensures t.kids.layout.nbr > SPARSE_MAX + 1
  {
    hide Shrink;
    assert Nil in t.kids.slots;
    EmptiedTables(t, i, c, im);
    ShrinkHole(t.kids, Nil, i, c);
  }

  lemma EmptiedHole(t: Tree, i: nat, c: byte, im: Image)
    requires Emptied(t, i, c, im) && t.kids.slots[i] == Nil
    requires Sized(im.kids) && Shrink(im.kids, Null, i, c).Some?
    ensures ShrinksTo(im.kids, i, c)
  {
    hide Shrink, ChildTable.Valid, TrieTree.Valid, AsTrees, Live, Gather, ShrinksTo;
    EmptiedEnds(t, i, c, im);
    HoleTable(im.kids, i, c);
  }

  lemma HoleTable(kids: Table<Image>, i: nat, c: byte)
    requires Sized(kids) && kids.layout.Dense? && i < |kids.slots| && kids.slots[i] == Null
    requires Slot(kids.layout, c) == Some(i) && kids.layout.min < c < kids.layout.max
    requires kids.layout.nbr > SPARSE_MAX + 1
    ensures Shrink(kids, Null, i, c).Some? && ShrinksTo(kids, i, c)
  {
    assert kids.slots[i := Null] == kids.slots;
    var r := Shrink(kids, Null, i, c).value;
    assert r == Table(Dense(kids.layout.min, kids.layout.max, kids.layout.nbr - 1), kids.slots);
    forall d: byte ensures At(r, Null, d) == if d == c then Null else At(kids, Null, d) {
    }
  }

  lemma FilledAt(kids: Table<Image>, i: nat, c: byte, x: Image)
    requires Charted(kids) && Slot(kids.layout, c) == Some(i) && kids.slots[i] == Null
    ensures forall d: byte ::
      At(kids.(slots := kids.slots[i := x]), Null, d) == if d == c then x else At(kids, Null, d)
  {
    forall d: byte
      ensures At(kids.(slots := kids.slots[i := x]), Null, d) == if d == c then x else At(kids, Null, d)
    {
      if Slot(kids.layout, d).Some? { SlotChar(kids, d); SlotChar(kids, c); }
    }
  }

  lemma EmptiedTaken(t: Tree, i: nat, c: byte, im: Image)
    requires Emptied(t, i, c, im) && t.kids.slots[i] != Nil
    requires Sized(im.kids) && Shrink(im.kids, Null, i, c).Some?
    ensures ShrinksTo(im.kids, i, c)
  {
    hide Shrink, At;
    EmptiedFilled(t, i, c, im);
    var filled := im.kids.(slots := im.kids.slots[i := im]);
    ShrinkAt(filled, Null, i, c);
    ShrinkIgnores(filled, Null, i, c);
    assert filled.slots[i := Null] == im.kids.slots;
    assert filled.(slots := im.kids.slots) == im.kids;
    FilledAt(im.kids, i, c, im);
    ShrinkSparse(im.kids, i, c);
  }

  lemma ShrinkSparse(kids: Table<Image>, i: nat, c: byte)
    requires Sized(kids) && i < |kids.slots|
    ensures kids.layout.Sparse? ==>
      Shrink(kids, Null, i, c).Some? && Shrink(kids, Null, i, c).value.layout.Sparse?
  {
  }

  lemma EmptiedFacts(t: Tree, i: nat, c: byte, im: Image)
    requires Emptied(t, i, c, im) && Prune(t, i, c).Done?
    ensures Charted(im.kids) && Sized(im.kids) && i < |im.kids.slots| && im.kids.slots[i] == Null
    ensures Slot(im.kids.layout, c) == Some(i) && Shrink(im.kids, Null, i, c).Some?
    ensures var kids := Shrink(im.kids, Null, i, c).value;
      && ShrinksTo(im.kids, i, c)
      && Shrink(Table(im.kids.layout, Addrs(im.kids.slots)), null, i, c)
           == Some(Table(kids.layout, Addrs(kids.slots)))
  {
    EmptiedTables(t, i, c, im);
    EmptiedAt(t, i, c, im);
  }

  lemma EmptiedAt(t: Tree, i: nat, c: byte, im: Image)
    requires Emptied(t, i, c, im) && Sized(im.kids) && Shrink(im.kids, Null, i, c).Some?
    ensures Charted(im.kids) && ShrinksTo(im.kids, i, c)
  {
    if t.kids.slots[i] == Nil {
      EmptiedHole(t, i, c, im);
    } else {
      EmptiedTaken(t, i, c, im);
    }
  }

  lemma PruneSparse(t: Tree, i: nat, c: byte, im: Image, n: TrieNode)
    requires Emptied(t, i, c, im) && Prune(t, i, c).Done? && im.kids.layout.Sparse?
    ensures Sized(im.kids) && i < |im.kids.slots| && Shrink(im.kids, Null, i, c).Some?
    ensures var kids := Shrink(im.kids, Null, i, c).value;
      var kept := Cell(n, im.refs, im.prefix, kids);
      && (kids.slots == [] && im.refs == 0 ==> Prune(t, i, c) == Done(1, Nil))
      && (!(kids.slots == [] && im.refs == 0) ==>
           && Full(kept) && AsTree(kept).Node? && Sized(AsTree(kept).kids)
           && (kids.layout.Sparse? ==> Nil !in AsTree(kept).kids.slots)
           && Prune(t, i, c) == Done(1, TrieTree.Compact(AsTree(kept))))
  {
    hide Shrink, TrieTree.Compact, ChildTable.Valid, Live;
    EmptiedTables(t, i, c, im);
    EmptiedAt(t, i, c, im);
    FullTree(Cell(n, im.refs, im.prefix, Shrink(im.kids, Null, i, c).value));
  }

  lemma PruneDense(t: Tree, i: nat, c: byte, im: Image, n: TrieNode)
    requires Emptied(t, i, c, im) && Prune(t, i, c).Done? && im.kids.layout.Dense?
    ensures Sized(im.kids) && i < |im.kids.slots| && Shrink(im.kids, Null, i, c).Some?
    ensures var kids := Shrink(im.kids, Null, i, c).value;
      var refs := if im.kids.layout.nbr > SPARSE_MAX + 1 then im.refs else 0;
      Prune(t, i, c) == Done(1, AsTree(Cell(n, refs, im.prefix, kids)))
  {
    EmptiedTables(t, i, c, im);
    EmptiedAt(t, i, c, im);
  }

  // What the level above makes of the outcome below.
  lemma AboveFacts(im: Image, i: nat, c: byte, sub: Image)
    requires im.Cell? && TrieTree.Valid(AsTree(im)) && Slot(im.kids.layout, c) == Some(i)
    ensures i < |im.kids.slots| && (sub == Null <==> AsTree(sub) == Nil)
    ensures var t := AsTree(im); var im' := im.(kids := im.kids.(slots := im.kids.slots[i := sub]));
      && t.Node?
      && AsTree(im') == t.(kids := t.kids.(slots := t.kids.slots[i := AsTree(sub)]))
      && (sub == Null ==> Emptied(t, i, c, im'))
  {
    assert AsTrees(im.kids.slots[i := sub]) == AsTrees(im.kids.slots)[i := AsTree(sub)];
  }

  lemma SubValid(t: Tree, i: nat)
    requires t.Node? && TrieTree.Valid(t) && i < |t.kids.slots|
    ensures TrieTree.Valid(t.kids.slots[i])
  {
    assert t.kids.slots[i] in t.kids.slots;
  }

  lemma EndFacts(t: Tree, data: seq<byte>)
    requires TrieTree.Valid(t)
    ensures data == [] ==> TrieTree.Unsubscribe(t, data) == Found(t)
    ensures data != [] && t == Nil ==> TrieTree.Unsubscribe(t, data) == Fault
    ensures t.Node? ==> Sized(t.kids)
    ensures data != [] && t.Node? && !(t.prefix <= data) ==> TrieTree.Unsubscribe(t, data) == Done(0, t)
    ensures t.Node? && t.prefix == data ==> TrieTree.Unsubscribe(t, data) == Found(t)
  {
  }

  // grid_node_unsubscribe.
  method UnsubscribeNode(self: TrieNode?, data: seq<byte>, ghost im: Image, ghost repr: set<TrieNode>)
    returns (rc: int, n: TrieNode?, ghost im': Image)
    requires Sound(im) && Addr(im) == self && repr == Nodes(im) && TrieTree.Valid(AsTree(im))
    requires TrieTree.Unsubscribe(AsTree(im), data).Done?
    modifies repr
    ensures Sound(im') && Addr(im') == n
    ensures forall x :: x in Nodes(im') && x !in repr ==> fresh(x)
    ensures TrieTree.Unsubscribe(AsTree(im), data) == Done(rc, AsTree(im'))
    decreases |data|, 1
  {
    hide Matches, Separate, Family, Nodes, KidNodes, AsTree, AsTrees, TrieTree.Valid, TrieTree.Unsubscribe,
      TrieUnsubscribe.Deeper,
      ChildTable.Valid, Sized, Prune, Found, Emptied, Common, Graft;
    ghost var t := AsTree(im);
    EndFacts(t, data);
    if data == [] {
      rc, n, im' := FoundNode(self, im, repr);
      return;
    }
    NoImage();
    WalkFacts(im);
    var pos := TrieNodes.CheckPrefix(self, data);
    TrieSubscribe.CommonPrefix(t.prefix, data);
    if pos != |self.prefix| {
      return 0, self, im;
    }
    var rest := data[|self.prefix|..];
    if rest == [] {
      assert t.prefix == data;
      rc, n, im' := FoundNode(self, im, repr);
      return;
    }
    TrieUnsubscribe.UnsubscribeStep(t, data);
    var slot := TrieNodes.Next(self, rest[0]);
    if slot == None {
      return 0, self, im;
    }
    var i := slot.value;
    SlotFacts(t, rest[0]);
    SubValid(t, i);
    assert rest[1..] == data[|t.prefix| + 1..];
    rc, n, im' := UnsubscribeBelow(self, i, rest[0], rest[1..], im, repr);
  }
  // The level below, and what has to be done here once it has returned.
  method UnsubscribeBelow(self: TrieNode, i: nat, c: byte, rest: seq<byte>, ghost im: Image,
      ghost repr: set<TrieNode>)
    returns (rc: int, n: TrieNode?, ghost im': Image)
    requires Sound(im) && im.Cell? && im.node == self && repr == Nodes(im) && TrieTree.Valid(AsTree(im))
    requires AsTree(im).Node? && Slot(AsTree(im).kids.layout, c) == Some(i)
    requires TrieUnsubscribe.Deeper(AsTree(im), i, c, rest).Done?
    modifies repr
    ensures Sound(im') && Addr(im') == n
    ensures forall x :: x in Nodes(im') && x !in repr ==> fresh(x)
    ensures TrieUnsubscribe.Deeper(AsTree(im), i, c, rest) == Done(rc, AsTree(im'))
    decreases |rest| + 1, 0
  {
    hide Matches, Separate, Family, Nodes, KidNodes, AsTree, AsTrees, TrieTree.Valid, TrieTree.Unsubscribe,
      ChildTable.Valid, Sized, Prune, Emptied;
    ghost var t := AsTree(im);
    CellFacts(im);
    BelowFacts(im, i, c);
    ghost var kid := im.kids.slots[i];
    var below, ch, sub := UnsubscribeNode(self.child[i], rest, kid, Nodes(kid));
    AboveFacts(im, i, c, sub);
    self.child := self.child[i := ch];
    ghost var here := im.(kids := im.kids.(slots := im.kids.slots[i := sub]));
    ReplaceMatches(im, i, sub);
    if below == 0 {
      return 0, self, here;
    }
    if ch != null {
      return 1, self, here;
    }
    rc := 1;
    n, im' := PruneNode(self, c, i, t, here, Nodes(here));
  }

  // The child and the other children of a node.
  lemma BelowFacts(im: Image, i: nat, c: byte)
    requires Sound(im) && im.Cell? && TrieTree.Valid(AsTree(im)) && AsTree(im).Node?
    requires Slot(AsTree(im).kids.layout, c) == Some(i)
    ensures i < |im.kids.slots| && i < |AsTree(im).kids.slots| && im.kids.layout == AsTree(im).kids.layout
    ensures var kid := im.kids.slots[i];
      && AsTree(im).kids.slots[i] == AsTree(kid) && TrieTree.Valid(AsTree(kid))
      && Sound(kid) && Nodes(kid) <= Nodes(im) && im.node !in Nodes(kid)
      && forall j :: 0 <= j < |im.kids.slots| && j != i ==>
           Matches(im.kids.slots[j]) && Nodes(im.kids.slots[j]) <= Nodes(im) && Nodes(im.kids.slots[j]) !! Nodes(kid)
  {
    SubValid(AsTree(im), i);
    NodesBelow(im, i);
    forall j | 0 <= j < |im.kids.slots| && j != i
      ensures Nodes(im.kids.slots[j]) <= Nodes(im) && Nodes(im.kids.slots[j]) !! Nodes(im.kids.slots[i])
    {
      NodesBelow(im, j);
      NodesApart(im, i, j);
    }
  }

  lemma MatchStep(t: Tree, mem: nat -> byte, pos: nat, size: int)
    requires TrieTree.Valid(t) && t.Node? && Shaped(t)
    ensures var n := |t.prefix|;
      MatchFrom(t, mem, pos, size) <==>
        && PrefixHere(t.prefix, mem, pos, size)
        && (t.refs > 0 ||
             var u := Child(t, mem(pos + n));
             Shaped(u) && MatchFrom(u, mem, pos + n + 1, size - n - 1))
  {
  }

  class Trie {
    var root: TrieNode?
    ghost var image: Image
    ghost var repr: set<TrieNode>

    ghost predicate Valid()
      reads this, repr
    {
      repr == Nodes(image) && Sound(image) && root == Addr(image) && TrieTree.Valid(AsTree(image))
    }

    // The tree the pointers stand for.
    ghost function Value(): Tree
      reads this
    {
      AsTree(image)
    }

    // grid_trie_init.
    constructor ()
      ensures Valid() && fresh(repr) && Value() == Nil
    {
      root := null;
      image := Null;
      repr := {};
    }

    // grid_trie_subscribe.
    method Subscribe(data: seq<byte>) returns (rc: int)
      requires Valid()
      modifies this, repr
      ensures Valid() && fresh(repr - old(repr))
      ensures Value() == TrieTree.Subscribe(old(Value()), data)
      ensures rc == SubscribeResult(old(Value()), data)
    {
      hide Matches, Separate, Family, Nodes, AsTree, AsTrees, Graft, GraftTree, Reach, Parent, Chain, GoodPath,
        TrieTree.Valid, TrieTree.Subscribe, SubscribeResult, Common, Child, ChildTable.Valid, Sized;
      AtRoot(image, data);
      var node := root;
      var parent: TrieNode? := null;
      var index := 0;
      var rest := data;
      var pos := 0;
      ghost var path: seq<nat> := [];
      ghost var here := data;
      while node != null
        modifies {}
        invariant Valid()
        invariant GoodPath(image, path) && node == Addr(Reach(image, path))
        invariant TrieTree.Valid(AsTree(Reach(image, path)))
        invariant path != [] ==> parent == Parent(image, path).node && index == path[|path| - 1]
        invariant path == [] ==> parent == null
        invariant rest == here
        invariant GraftTree(image, path, TrieTree.Subscribe(AsTree(Reach(image, path)), here))
          == TrieTree.Subscribe(AsTree(image), data)
        invariant SubscribeResult(AsTree(Reach(image, path)), here) == SubscribeResult(AsTree(image), data)
        decreases |rest|
      {
        ghost var cur := Reach(image, path);
        ReachMatches(image, path);
        WalkFacts(cur);
        TrieSubscribe.CommonPrefix(node.prefix, here);
        pos := TrieNodes.CheckPrefix(node, rest);
        rest := rest[pos..];
        if pos < |node.prefix| || rest == [] {
          break;
        }
        var slot := TrieNodes.Next(node, rest[0]);
        SlotFacts(AsTree(cur), rest[0]);
        if slot == None || node.child[slot.value] == null {
          break;
        }
        StepInvariant(image, path, slot.value, here, data);
        ReachStep(image, path, slot.value);
        parent, index, node := node, slot.value, node.child[slot.value];
        rest := rest[1..];
        path, here := path + [slot.value], rest;
      }
      ghost var was := image;
      ghost var cur := Reach(image, path);
      TrieSubscribe.SubscribeCount(Value(), data, data);
      assert GraftTree(was, path, TrieTree.Subscribe(AsTree(cur), here)) == TrieTree.Subscribe(AsTree(was), data);
      rc := Rehang(parent, index, node, pos, rest, here, path, cur, Nodes(cur));
      assert AsTree(image) == TrieTree.Subscribe(AsTree(was), data);
    }

    // Do the rest of the work at the node the walk ended at, and store the outcome in
    // the slot the walk came through.
    method Rehang(parent: TrieNode?, index: nat, node: TrieNode?, pos: nat, rest: seq<byte>,
        ghost here: seq<byte>, ghost path: seq<nat>, ghost cur: Image, ghost below: set<TrieNode>)
      returns (rc: int)
      requires Valid() && GoodPath(image, path) && cur == Reach(image, path) && node == Addr(cur)
      requires path != [] ==> parent == Parent(image, path).node && index == path[|path| - 1]
      requires path == [] ==> parent == null
      requires below == Nodes(cur) && TrieTree.Valid(AsTree(cur))
      requires node == null ==> rest == here
      requires node != null ==>
        && pos == Common(node.prefix, here) && rest == here[pos..]
        && (pos == |node.prefix| && rest != [] ==> Child(AsTree(cur), rest[0]) == Nil)
      modifies this, repr
      ensures repr == Nodes(image) && Sound(image) && root == Addr(image)
      ensures fresh(repr - old(repr))
      ensures AsTree(image) == GraftTree(old(image), path, TrieTree.Subscribe(AsTree(cur), here))
      ensures rc == SubscribeResult(AsTree(cur), here)
    {
      hide Matches, Separate, Family, Nodes, AsTree, AsTrees, Graft, GraftTree, Reach, Parent, Rim, Chain,
        TrieTree.Valid, TrieTree.Subscribe, SubscribeResult, Common, GoodPath, Child;
      ReachSound(image, path);
      ReachMatches(image, path);
      NullSubscribes(here);
      if path != [] {
        RimMatches(image, path);
      }
      var n: TrieNode;
      ghost var sub: Image;
      if node == null {
        n, sub := TrieNodes.BuildChain(rest);
        rc := 1;
      } else {
        rc, n, sub := SubscribeHere(node, pos, rest, here, cur, below);
      }
      if parent == null {
        root := n;
      } else {
        parent.child := parent.child[index := n];
      }
      HangIn(image, path, sub);
      repr := (repr - below) + Nodes(sub);
      image := Graft(image, path, sub);
    }

    // grid_trie_unsubscribe, where it does not read through NULL or fail an assertion.
    method Unsubscribe(data: seq<byte>) returns (rc: int)
      requires Valid() && TrieTree.Unsubscribe(Value(), data).Done?
      modifies this, repr
      ensures repr == Nodes(image) && Sound(image) && root == Addr(image)
      ensures fresh(repr - old(repr))
      ensures TrieTree.Unsubscribe(old(Value()), data) == Done(rc, Value())
      ensures TrieTree.Valid(Value()) ==> Valid()
    {
      hide Matches, Separate, Nodes, AsTree, TrieTree.Unsubscribe, TrieTree.Valid;
      ghost var im: Image;
      rc, root, im := UnsubscribeNode(root, data, image, repr);
      image, repr := im, Nodes(im);
    }

    /** grid_trie_match: the cursor loop over the nodes.  `mem` is the memory the message
        starts in. */
    method Match(mem: nat -> byte, size: nat) returns (found: bool)
      requires Valid()
      ensures Shaped(Value())
      ensures found == MatchFrom(Value(), mem, 0, size)
    {
      hide Matches, Separate, Nodes, AsTree, AsTrees, TrieTree.Valid, Shaped, Child;
      ValidIsShaped(Value());
      var node, pos, left := root, 0, size as int;
      ghost var im := image;
      NoImage();
      while node != null
        invariant pos >= 0 && node == Addr(im) && Matches(im) && Nodes(im) <= repr
        invariant TrieTree.Valid(AsTree(im)) && Shaped(AsTree(im)) && Shaped(AsTree(image))
        invariant MatchFrom(AsTree(im), mem, pos, left) == MatchFrom(AsTree(image), mem, 0, size)
        decreases im
      {
        ghost var t := AsTree(im);
        WalkFacts(im);
        var i := TrieNodes.CheckMemory(node, mem, pos, left);
        MatchStep(t, mem, pos, left);
        if i != |node.prefix| {
          return false;
        }
        pos, left := pos + |node.prefix|, left - |node.prefix|;
        if node.refcount > 0 {
          return true;
        }
        var c := mem(pos);
        var slot := TrieNodes.Next(node, c);
        SlotFacts(t, c);
        if slot == None {
          return false;
        }
        SubValid(t, slot.value);
        ValidIsShaped(t.kids.slots[slot.value]);
        WalkFacts(im);
        NodesBelow(im, slot.value);
        node := node.child[slot.value];
        ghost var kid := im.kids.slots[slot.value];
        assert kid == Null || kid < im;
        im := kid;
        pos, left := pos + 1, left - 1;
      }
      return false;
    }
  }
}

/** The trie of src/protocols/pubsub/trie.c in memory, each operation proved against the
    function of TrieTree that says what it makes of the tree. */
module TrieHeap {
  import opened Bytes
  import opened ChildTable
  import opened TrieTree
  import opened TrieMemory
  import TrieNodes

  // ---------- Following a path of slots ----------

  ghost predicate GoodPath(im: Image, path: seq<nat>)
    decreases |path|
  {
    path == [] ||
    (im.Cell? && path[0] < |im.kids.slots| && GoodPath(im.kids.slots[path[0]], path[1..]))
  }

  ghost function Reach(im: Image, path: seq<nat>): Image
    requires GoodPath(im, path)
    decreases |path|
  {
    if path == [] then im else Reach(im.kids.slots[path[0]], path[1..])
  }

  // The image with another one hooked in at the end of the path.
  ghost function Graft(im: Image, path: seq<nat>, sub: Image): Image
    requires GoodPath(im, path)
    decreases |path|
  {
    if path == [] then sub
    else im.(kids := im.kids.(slots :=
           im.kids.slots[path[0] := Graft(im.kids.slots[path[0]], path[1..], sub)]))
  }

  ghost function GraftTree(im: Image, path: seq<nat>, u: Tree): Tree
    requires GoodPath(im, path)
    decreases |path|
  {
    if path == [] then u
    else Node(im.refs, im.prefix, Table(im.kids.layout,
           AsTrees(im.kids.slots)[path[0] := GraftTree(im.kids.slots[path[0]], path[1..], u)]))
  }

  // The part of the image whose slot the path ends in.
  ghost function Parent(im: Image, path: seq<nat>): (p: Image)
    requires GoodPath(im, path) && path != []
    ensures p.Cell? && path[|path| - 1] < |p.kids.slots|
    ensures p.kids.slots[path[|path| - 1]] == Reach(im, path)
    decreases |path|
  {
    if |path| == 1 then im else Parent(im.kids.slots[path[0]], path[1..])
  }

  lemma {:induction false} ReachStep(im: Image, path: seq<nat>, i: nat)
    requires GoodPath(im, path) && Reach(im, path).Cell? && i < |Reach(im, path).kids.slots|
    ensures GoodPath(im, path + [i])
    ensures Reach(im, path + [i]) == Reach(im, path).kids.slots[i]
    ensures Parent(im, path + [i]) == Reach(im, path)
    decreases |path|
  {
    if path == [] {
      assert [] + [i] == [i];
    } else {
      assert (path + [i])[1..] == path[1..] + [i];
      ReachStep(im.kids.slots[path[0]], path[1..], i);
    }
  }

  lemma {:induction false} GraftTreeStep(im: Image, path: seq<nat>, i: nat, u: Tree)
    requires GoodPath(im, path) && Reach(im, path).Cell? && i < |Reach(im, path).kids.slots|
    ensures GoodPath(im, path + [i])
    ensures var t := AsTree(Reach(im, path));
      GraftTree(im, path + [i], u)
      == GraftTree(im, path, t.(kids := t.kids.(slots := t.kids.slots[i := u])))
    decreases |path|
  {
    if path == [] {
      assert [] + [i] == [i];
      assert GraftTree(im.kids.slots[i], [], u) == u;
    } else {
      assert (path + [i])[1..] == path[1..] + [i];
      GraftTreeStep(im.kids.slots[path[0]], path[1..], i, u);
    }
  }

  lemma {:induction false} GraftAsTree(im: Image, path: seq<nat>, sub: Image)
    requires GoodPath(im, path)
    ensures AsTree(Graft(im, path, sub)) == GraftTree(im, path, AsTree(sub))
    decreases |path|
  {
    if path != [] {
      var i := path[0];
      GraftAsTree(im.kids.slots[i], path[1..], sub);
      var g := Graft(im.kids.slots[i], path[1..], sub);
      assert AsTrees(im.kids.slots[i := g]) == AsTrees(im.kids.slots)[i := AsTree(g)];
    }
  }

  lemma {:induction false} ReachSound(im: Image, path: seq<nat>)
    requires GoodPath(im, path) && Separate(im)
    ensures Separate(Reach(im, path)) && Nodes(Reach(im, path)) <= Nodes(im)
    ensures path != [] ==>
      Parent(im, path).node in Nodes(im) && Parent(im, path).node !in Nodes(Reach(im, path))
    decreases |path|
  {
    if path != [] {
      ReachSound(im.kids.slots[path[0]], path[1..]);
      NodesBelow(im, path[0]);
    }
  }

  lemma {:induction false} ReachMatches(im: Image, path: seq<nat>)
    requires GoodPath(im, path) && Matches(im)
    ensures Matches(Reach(im, path))
    decreases |path|
  {
    if path != [] {
      ReachMatches(im.kids.slots[path[0]], path[1..]);
    }
  }

  // The memory looks like the image off the end of the path, where `hook` hangs.
  ghost predicate Hooked(im: Image, path: seq<nat>, hook: TrieNode?)
    requires GoodPath(im, path) && Separate(im)
    reads Nodes(im) - Nodes(Reach(im, path))
    decreases |path|
  {
    path == [] ||
    var i := path[0];
    ReachApart(im, path);
    && HoldsBut(im, i, if |path| == 1 then hook else Addr(im.kids.slots[i]))
    && (forall j :: 0 <= j < |im.kids.slots| && j != i ==> Matches(im.kids.slots[j]))
    && Hooked(im.kids.slots[i], path[1..], hook)
  }

  ghost predicate HoldsBut(im: Image, i: nat, hook: TrieNode?)
    requires im.Cell? && i < |im.kids.slots|
    reads im.node
  {
    && im.node.refcount == im.refs && im.node.prefix == im.prefix
    && im.node.layout == im.kids.layout
    && im.node.child == Addrs(im.kids.slots)[i := hook]
  }

  lemma ReachApart(im: Image, path: seq<nat>)
    requires GoodPath(im, path) && path != [] && Separate(im)
    ensures var end := Nodes(Reach(im, path)); var slots := im.kids.slots;
      && im.node !in end
      && end <= Nodes(slots[path[0]]) <= Nodes(im)
      && (forall j :: 0 <= j < |slots| && j != path[0] ==> Nodes(slots[j]) <= Nodes(im) - end)
  {
    ReachSound(im.kids.slots[path[0]], path[1..]);
    NodesBelow(im, path[0]);
    forall j | 0 <= j < |im.kids.slots| && j != path[0]
      ensures Nodes(im.kids.slots[j]) <= Nodes(im) - Nodes(Reach(im, path))
    {
      NodesBelow(im, j);
      NodesApart(im, path[0], j);
    }
  }

  lemma NodesApart(im: Image, i: nat, j: nat)
    requires im.Cell? && Separate(im) && i < |im.kids.slots| && j < |im.kids.slots| && i != j
    ensures Nodes(im.kids.slots[i]) !! Nodes(im.kids.slots[j])
  {
  }

  lemma HookedTop(im: Image, path: seq<nat>, hook: TrieNode?)
    requires GoodPath(im, path) && path != [] && Separate(im) && Hooked(im, path, hook)
    ensures var i := path[0]; var slots := im.kids.slots;
      && HoldsBut(im, i, if |path| == 1 then hook else Addr(slots[i]))
      && (forall j :: 0 <= j < |slots| && j != i ==> Matches(slots[j]))
      && Hooked(slots[i], path[1..], hook)
  {
  }

  // Another image hung in at the end of the path, made of none of the other nodes.
  lemma {:induction false} Splice(im: Image, path: seq<nat>, sub: Image)
    requires GoodPath(im, path) && Separate(im) && Hooked(im, path, Addr(sub))
    requires Matches(sub) && Separate(sub)
    requires Nodes(sub) !! Nodes(im) - Nodes(Reach(im, path))
    ensures var g := Graft(im, path, sub);
      && Matches(g) && Separate(g)
      && Nodes(g) == (Nodes(im) - Nodes(Reach(im, path))) + Nodes(sub)
    decreases |path|
  {
    if path != [] {
      var i := path[0];
      NodesBelow(im, i);
      HookedTop(im, path, Addr(sub));
      Splice(im.kids.slots[i], path[1..], sub);
      var below := Graft(im.kids.slots[i], path[1..], sub);
      SpliceApart(im, path, sub, below);
      assert Addr(below) == if |path| == 1 then Addr(sub) else Addr(im.kids.slots[i]);
      ReplaceMatches(im, i, below);
    }
  }

  lemma SpliceApart(im: Image, path: seq<nat>, sub: Image, below: Image)
    requires GoodPath(im, path) && path != [] && Separate(im)
    requires Nodes(sub) !! Nodes(im) - Nodes(Reach(im, path))
    requires Nodes(below) == (Nodes(im.kids.slots[path[0]]) - Nodes(Reach(im, path))) + Nodes(sub)
    ensures im.node !in Nodes(below)
    ensures forall j :: 0 <= j < |im.kids.slots| && j != path[0] ==>
      Nodes(im.kids.slots[j]) !! Nodes(below)
    ensures (Nodes(im) - Nodes(im.kids.slots[path[0]])) + Nodes(below)
      == (Nodes(im) - Nodes(Reach(im, path))) + Nodes(sub)
  {
    ReachApart(im, path);
    forall j | 0 <= j < |im.kids.slots| && j != path[0]
      ensures Nodes(im.kids.slots[j]) !! Nodes(below)
    {
      NodesApart(im, path[0], j);
    }
  }

  lemma ReplaceMatches(im: Image, i: nat, below: Image)
    requires im.Cell? && i < |im.kids.slots| && Separate(im) && HoldsBut(im, i, Addr(below))
    requires forall j :: 0 <= j < |im.kids.slots| && j != i ==>
      Matches(im.kids.slots[j]) && Nodes(im.kids.slots[j]) !! Nodes(below)
    requires Matches(below) && Separate(below) && im.node !in Nodes(below)
    ensures var g := im.(kids := im.kids.(slots := im.kids.slots[i := below]));
      && Matches(g) && Separate(g)
      && Nodes(g) == (Nodes(im) - Nodes(im.kids.slots[i])) + Nodes(below)
  {
    var slots := im.kids.slots;
    var g := im.(kids := im.kids.(slots := slots[i := below]));
    assert Addrs(g.kids.slots) == Addrs(slots)[i := Addr(below)];
    ReplaceNodes(im, i, below);
  }

  lemma ReplaceNodes(im: Image, i: nat, below: Image)
    requires im.Cell? && i < |im.kids.slots| && Separate(im)
    ensures var g := im.(kids := im.kids.(slots := im.kids.slots[i := below]));
      Nodes(g) == (Nodes(im) - Nodes(im.kids.slots[i])) + Nodes(below)
  {
    var slots := im.kids.slots;
    var g := im.(kids := im.kids.(slots := slots[i := below]));
    forall n | n in Nodes(g) ensures n in (Nodes(im) - Nodes(slots[i])) + Nodes(below) {
      if n != im.node {
        var k :| 0 <= k < |slots| && n in Nodes(g.kids.slots[k]);
        if k != i { NodesBelow(im, k); NodesApart(im, k, i); }
      }
    }
    forall n | n in (Nodes(im) - Nodes(slots[i])) + Nodes(below) ensures n in Nodes(g) {
      if n in Nodes(below) {
        NodesBelow(g, i);
      } else if n != im.node {
        var k :| 0 <= k < |slots| && n in Nodes(slots[k]);
        assert g.kids.slots[k] == slots[k];
        NodesBelow(g, k);
      }
    }
  }

  // The memory looks like the image off the end of the path, but for the node whose
  // slot the path ends in.
  ghost predicate Rim(im: Image, path: seq<nat>)
    requires GoodPath(im, path) && path != [] && Separate(im)
    reads Nodes(im) - Nodes(Reach(im, path)) - {Parent(im, path).node}
    decreases |path|
  {
    var i := path[0];
    ReachApart(im, path);
    ParentApart(im, path);
    && (forall j :: 0 <= j < |im.kids.slots| && j != i ==> Matches(im.kids.slots[j]))
    && (|path| > 1 ==>
          && HoldsBut(im, i, Addr(im.kids.slots[i]))
          && Rim(im.kids.slots[i], path[1..]))
  }

  lemma ParentApart(im: Image, path: seq<nat>)
    requires GoodPath(im, path) && path != [] && Separate(im)
    ensures Parent(im, path).node in Nodes(im)
    ensures |path| > 1 ==> Parent(im, path).node in Nodes(im.kids.slots[path[0]])
    ensures forall j :: 0 <= j < |im.kids.slots| && j != path[0] ==>
      Parent(im, path).node !in Nodes(im.kids.slots[j])
  {
    if |path| > 1 {
      ReachSound(im.kids.slots[path[0]], path[1..]);
      NodesBelow(im, path[0]);
      forall j | 0 <= j < |im.kids.slots| && j != path[0]
        ensures Parent(im, path).node !in Nodes(im.kids.slots[j])
      {
        NodesApart(im, path[0], j);
      }
    }
  }

  lemma {:induction false} RimMatches(im: Image, path: seq<nat>)
    requires GoodPath(im, path) && path != [] && Separate(im) && Matches(im)
    ensures Rim(im, path)
    ensures HoldsBut(Parent(im, path), path[|path| - 1], Addr(Reach(im, path)))
    decreases |path|
  {
    if |path| > 1 {
      RimMatches(im.kids.slots[path[0]], path[1..]);
    }
  }

  lemma {:induction false} RimHooked(im: Image, path: seq<nat>, hook: TrieNode?)
    requires GoodPath(im, path) && path != [] && Separate(im)
    requires Rim(im, path) && HoldsBut(Parent(im, path), path[|path| - 1], hook)
    ensures Hooked(im, path, hook)
    decreases |path|
  {
    if |path| > 1 {
      RimHooked(im.kids.slots[path[0]], path[1..], hook);
    } else {
      assert path == [path[0]];
    }
  }

  // ---------- Steps on one node and what hangs below it ----------

  ghost predicate Sound(im: Image)
    reads Nodes(im)
  {
    Matches(im) && Separate(im)
  }

  // A node whose sparse slots are all taken.
  ghost predicate Full(im: Image) {
    im.Cell? && Sized(im.kids) && (im.kids.layout.Sparse? ==> Null !in im.kids.slots)
  }

  lemma FullTree(im: Image)
    requires Full(im)
    ensures Sized(AsTree(im).kids) && (im.kids.layout.Sparse? ==> Nil !in AsTree(im).kids.slots)
  {
  }

  // Other contents in the same node.
  lemma Relabel(im: Image, refs: nat, prefix: seq<byte>)
    requires im.Cell? && Holds(im.node, refs, prefix, im.kids)
    requires Family(im.kids) && im.node !in KidNodes(im.kids)
    ensures var im' := im.(refs := refs, prefix := prefix);
      && Sound(im') && Nodes(im') == Nodes(im)
  {
    var im' := im.(refs := refs, prefix := prefix);
    assert im'.kids == im.kids;
    FamilyOf(im);
    FamilyOf(im');
  }

  // grid_node_compact.
  method Compact(self: TrieNode, ghost im: Image) returns (m: TrieNode, ghost im': Image)
    requires Sound(im) && Full(im) && im.node == self
    requires Sized(AsTree(im).kids) && (im.kids.layout.Sparse? ==> Nil !in AsTree(im).kids.slots)
    modifies Nodes(im)
    ensures Sound(im') && Addr(im') == m && Nodes(im') <= Nodes(im)
    ensures AsTree(im') == TrieTree.Compact(AsTree(im))
  {
    m, im' := self, im;
    if self.refcount > 0 || self.layout.Dense? || |self.layout.chars| != 1 {
      return;
    }
    var ch := self.child[0];
    ghost var below := im.kids.slots[0];
    assert below in im.kids.slots && AsTree(im).kids.slots[0] == AsTree(below);
    NodesBelow(im, 0);
    assert Matches(below) && below != Null && ch == Addr(below);
    FamilyOf(below);
    if |self.prefix| + |ch.prefix| + 1 > PREFIX_MAX {
      return;
    }
    ch.prefix := self.prefix + [self.layout.chars[0]] + ch.prefix;
    m, im' := ch, below.(prefix := im.prefix + [im.kids.layout.chars[0]] + below.prefix);
    Relabel(below, im'.refs, im'.prefix);
  }

  // A new node above an image.
  lemma Above(n: TrieNode, refs: nat, prefix: seq<byte>, c: byte, below: Image)
    requires Sound(below) && n !in Nodes(below)
    requires n.refcount == refs && n.prefix == prefix
    requires n.layout == Sparse([c]) && n.child == [Addr(below)]
    ensures var im := Cell(n, refs, prefix, Table(Sparse([c]), [below]));
      && Sound(im) && Nodes(im) == {n} + Nodes(below)
      && AsTree(im) == Node(refs, prefix, Sole(c, AsTree(below)))
  {
    var im := Cell(n, refs, prefix, Table(Sparse([c]), [below]));
    assert im.kids.slots[0] == below;
    assert Addrs([below]) == [Addr(below)];
    assert AsTrees([below]) == [AsTree(below)];
  }

  lemma Shorten(im: Image, prefix: seq<byte>)
    requires im.Cell? && Sized(im.kids) && (im.kids.layout.Sparse? ==> Null !in im.kids.slots)
    ensures Full(im.(prefix := prefix)) && AsTree(im).Node?
    ensures AsTree(im.(prefix := prefix)) == AsTree(im).(prefix := prefix)
    ensures Sized(AsTree(im).kids) && (im.kids.layout.Sparse? ==> Nil !in AsTree(im).kids.slots)
  {
    var im' := im.(prefix := prefix);
    assert im'.kids == im.kids;
  }

  // Step 2 of grid_trie_subscribe: split the prefix of a node in two.
  method SplitNode(self: TrieNode, pos: nat, ghost im: Image, ghost repr: set<TrieNode>)
    returns (n: TrieNode, ghost im': Image)
    requires Sound(im) && Full(im) && im.node == self && pos < |self.prefix| && repr == Nodes(im)
    requires Sized(AsTree(im).kids) && (im.kids.layout.Sparse? ==> Nil !in AsTree(im).kids.slots)
    modifies repr
    ensures Sound(im') && Addr(im') == n && fresh(n) && Nodes(im') <= repr + {n}
    ensures AsTree(im') == Split(AsTree(im), pos)
  {
    hide Matches, Separate, Family, Nodes, KidNodes, AsTree, AsTrees, TrieTree.Compact, Sized;
    CellFacts(im);
    Shorten(im, im.prefix[pos + 1..]);
    FamilyOf(im);
    var c := self.prefix[pos];
    n := new TrieNode(0, self.prefix[..pos], Sparse([c]), [null]);
    self.prefix := self.prefix[pos + 1..];
    ghost var cut := im.(prefix := im.prefix[pos + 1..]);
    FamilyOf(im);
    Relabel(im, cut.refs, cut.prefix);
    var ch, below := Compact(self, cut);
    n.child := n.child[0 := ch];
    Above(n, 0, im.prefix[..pos], c, below);
    im' := Cell(n, 0, im.prefix[..pos], Table(Sparse([c]), [below]));
  }

  lemma BranchChild(kids: Table<Image>, c: byte, x: Image)
    requires ChildTable.Valid(kids, Null) && At(kids, Null, c) == Null
    ensures var g := Grow(Table(kids.layout, Addrs(kids.slots)), null, c, null);
      var k := Grow(kids, Null, c, x);
      && Slot(g.layout, c).Some? && Slot(g.layout, c).value < |g.slots|
      && k.layout == g.layout && Addrs(k.slots) == g.slots[Slot(g.layout, c).value := Addr(x)]
  {
    hide Grow, ChildTable.Valid, At, Slot;
    ValidIsSized(kids);
    var k0 := Grow(kids, Null, c, Null);
    var k := Grow(kids, Null, c, x);
    GrowStore(kids, Null, c, x);
    TreeTable(kids);
    TreeTable(k0);
    GrowMap(Addr, kids, Null, c, Null);
    assert Addrs(k.slots) == Addrs(k0.slots)[Slot(k.layout, c).value := Addr(x)];
  }

  lemma BranchKids(kids: Table<Image>, c: byte, x: Image)
    requires Sized(kids)
    ensures var k := Grow(kids, Null, c, x);
      Table(k.layout, AsTrees(k.slots)) == Grow(Table(kids.layout, AsTrees(kids.slots)), Nil, c, AsTree(x))
  {
    hide Grow;
    TreeTable(kids);
    TreeTable(Grow(kids, Null, c, x));
    GrowMap(AsTree, kids, Null, c, x);
  }

  lemma BranchSound(n: TrieNode, kids: Table<Image>, c: byte, x: Image)
    requires ChildTable.Valid(kids, Null) && At(kids, Null, c) == Null && x != Null
    requires Family(kids) && Sound(x) && Nodes(x) !! KidNodes(kids)
    requires n !in KidNodes(kids) && n !in Nodes(x)
    requires n.layout == Grow(kids, Null, c, x).layout && n.child == Addrs(Grow(kids, Null, c, x).slots)
    ensures var im := Cell(n, n.refcount, n.prefix, Grow(kids, Null, c, x));
      Sound(im) && Nodes(im) <= {n} + KidNodes(kids) + Nodes(x)
  {
    var im := Cell(n, n.refcount, n.prefix, Grow(kids, Null, c, x));
    GrowAt(kids, Null, c, x);
    FamilyChange(kids, im.kids, c, x);
    FamilyOf(im);
  }

  lemma CellFacts(im: Image)
    requires Sound(im) && im.Cell?
    ensures Matches(im) && Separate(im)
    ensures im.node.refcount == im.refs && im.node.prefix == im.prefix
    ensures im.node.layout == im.kids.layout && im.node.child == Addrs(im.kids.slots)
    ensures AsTree(im).Node? && AsTree(im).prefix == im.prefix
    ensures im.node in Nodes(im)
  {
  }

  lemma ValidIsSized(kids: Table<Image>)
    requires ChildTable.Valid(kids, Null)
    ensures Sized(kids)
  {
  }

  lemma BranchTree(im: Image, n: TrieNode, refs: nat, c: byte, x: Image)
    requires im.Cell? && ChildTable.Valid(im.kids, Null) && At(im.kids, Null, c) == Null
    requires refs == if im.kids.layout.Sparse? && |im.kids.layout.chars| >= SPARSE_MAX then 0 else im.refs
    ensures AsTree(Cell(n, refs, im.prefix, Grow(im.kids, Null, c, x))) == Branch(AsTree(im), c, AsTree(x))
  {
    hide Grow;
    BranchKids(im.kids, c, x);
  }

  // Steps 3 and 4: a new branch for c, with a chain of nodes for the rest.
  method AddBranch(self: TrieNode, c: byte, rest: seq<byte>, ghost im: Image, ghost repr: set<TrieNode>)
    returns (n: TrieNode, ghost im': Image)
    requires Sound(im) && im.Cell? && im.node == self && repr == Nodes(im)
    requires ChildTable.Valid(im.kids, Null) && At(im.kids, Null, c) == Null
    modifies self
    ensures Sound(im') && Addr(im') == n
    ensures forall x :: x in Nodes(im') && x !in repr ==> fresh(x)
    ensures AsTree(im') == Branch(AsTree(im), c, Chain(rest))
  {
    hide Matches, Separate, Family, Nodes, KidNodes, AsTree, AsTrees, Branch, Grow, ChildTable.Valid;
    CellFacts(im);
    FamilyOf(im);
    assert Sized(im.kids) by { ValidIsSized(im.kids); }
    n := MakeRoom(self, c, im.kids);
    assert Family(im.kids) && n !in KidNodes(im.kids);
    var slot := TrieNodes.Next(n, c);
    var chain, chainIm := TrieNodes.BuildChain(rest);
    assert Family(im.kids) && Nodes(chainIm) !! KidNodes(im.kids);
    BranchChild(im.kids, c, chainIm);
    n.child := n.child[slot.value := chain];
    BranchSound(n, im.kids, c, chainIm);
    BranchTree(im, n, n.refcount, c, chainIm);
    im' := Cell(n, n.refcount, n.prefix, Grow(im.kids, Null, c, chainIm));
  }

  // Step 3: adjust the child array to accommodate the new character.
  method MakeRoom(self: TrieNode, c: byte, ghost kids: Table<Image>) returns (n: TrieNode)
    requires ChildTable.Valid(kids, Null) && At(kids, Null, c) == Null
    requires self.layout == kids.layout && self.child == Addrs(kids.slots)
    modifies self
    ensures n == self || fresh(n)
    ensures TrieNodes.HasRoom(n, old(Table(self.layout, self.child)), c)
    ensures n.prefix == old(self.prefix)
    ensures n.refcount ==
      if kids.layout.Sparse? && |kids.layout.chars| >= SPARSE_MAX then 0 else old(self.refcount)
  {
    n := self;
    if self.layout.Sparse? && |self.layout.chars| < SPARSE_MAX {
      TrieNodes.AppendChild(self, c);
    } else if self.layout.Dense? {
      TrieNodes.WidenChildren(self, c);
    } else {
      n := TrieNodes.SparseToDense(self, c);
    }
  }
}

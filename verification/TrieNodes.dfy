/** The operations of src/protocols/pubsub/trie.c on single nodes. */
module TrieNodes {
  import opened Bytes
  import opened ChildTable
  import opened TrieTree
  import opened TrieMemory

  lemma {:induction false} CommonIs(p: seq<byte>, d: seq<byte>, n: nat)
    requires n <= |p| && n <= |d| && p[..n] == d[..n]
    requires n == |p| || n == |d| || p[n] != d[n]
    ensures Common(p, d) == n
  {
    if n > 0 {
      assert p[0] == p[..n][0] == d[..n][0] == d[0];
      assert p[1..][..n - 1] == p[..n][1..] == d[..n][1..] == d[1..][..n - 1];
      CommonIs(p[1..], d[1..], n - 1);
    }
  }

  // grid_node_check_prefix, for data in a buffer of known length.
  method CheckPrefix(self: TrieNode, data: seq<byte>) returns (i: nat)
    ensures i == Common(self.prefix, data)
  {
    i := 0;
    while i != |self.prefix|
      invariant i <= |self.prefix| && i <= |data|
      invariant self.prefix[..i] == data[..i]
    {
      if i == |data| || self.prefix[i] != data[i] {
        CommonIs(self.prefix, data, i);
        return;
      }
      assert self.prefix[..i + 1] == data[..i + 1];
      i := i + 1;
    }
    CommonIs(self.prefix, data, i);
  }

  // The same function, for data in memory whose size has perhaps wrapped.
  method CheckMemory(self: TrieNode, mem: nat -> byte, pos: nat, size: int) returns (i: nat)
    ensures i <= |self.prefix| && (0 <= size ==> i <= size)
    ensures forall j :: 0 <= j < i ==> self.prefix[j] == mem(pos + j)
    ensures i < |self.prefix| && i != size ==> self.prefix[i] != mem(pos + i)
    ensures i == |self.prefix| <==> PrefixHere(self.prefix, mem, pos, size)
  {
    i := 0;
    while i != |self.prefix|
      invariant i <= |self.prefix|
      invariant 0 <= size ==> i <= size
      invariant forall j :: 0 <= j < i ==> self.prefix[j] == mem(pos + j)
    {
      if size - i == 0 || self.prefix[i] != mem(pos + i) {
        return;
      }
      i := i + 1;
    }
  }

  // grid_node_next.
  method Next(self: TrieNode, c: byte) returns (slot: Option<nat>)
    ensures slot == Slot(self.layout, c)
  {
    match self.layout
    case Sparse(chars) =>
      var i := 0;
      while i != |chars|
        invariant i <= |chars|
        invariant c !in chars[..i]
      {
        if chars[i] == c {
          assert forall j :: 0 <= j < i ==> chars[..i][j] != c;
          return Some(i);
        }
        i := i + 1;
      }
      return None;
    case Dense(min, max, _) =>
      if c < min || c > max {
        return None;
      }
      return Some(c - min);
  }

  // ---------- Step 3 of grid_trie_subscribe ----------

  // What the child array and its description become, with an empty slot for c.
  ghost predicate HasRoom(n: TrieNode, before: Table<TrieNode?>, c: byte)
    requires Sized(before)
    reads n
  {
    Table(n.layout, n.child) == Grow(before, null, c, null)
  }

  // The node is a sparse array with room to spare.
  method AppendChild(self: TrieNode, c: byte)
    requires self.layout.Sparse? && |self.layout.chars| == |self.child| < SPARSE_MAX
    modifies self
    ensures HasRoom(self, old(Table(self.layout, self.child)), c)
    ensures self.refcount == old(self.refcount) && self.prefix == old(self.prefix)
  {
    self.layout := Sparse(self.layout.chars + [c]);
    self.child := self.child + [null];
  }

  // The node is a dense array; resize it to fit the next character.
  method WidenChildren(self: TrieNode, c: byte)
    requires self.layout.Dense? && Sized(Table(self.layout, self.child))
    requires self.layout.min <= c <= self.layout.max ==> self.child[c - self.layout.min] == null
    modifies self
    ensures HasRoom(self, old(Table(self.layout, self.child)), c)
    ensures self.refcount == old(self.refcount) && self.prefix == old(self.prefix)
  {
    var Dense(min, max, nbr) := self.layout;
    ghost var before := self.child;
    if c < min || c > max {
      var newMin := if min < c then min else c;
      var newMax := if max > c then max else c;
      if min != newMin {
        var inserted := min - newMin;
        self.child := seq(inserted, _ => null) + self.child;
        assert self.child == [null] + seq(min - c - 1, _ => null) + before;
      } else {
        self.child := self.child + seq(newMax - max, _ => null);
        assert self.child == before + seq(c - max - 1, _ => null) + [null];
      }
      self.layout := Dense(newMin, newMax, nbr);
    } else {
      assert before[c - min := null] == before;
    }
    self.layout := self.layout.(nbr := self.layout.nbr + 1);
  }

  lemma {:induction false} LowestStep(chars: seq<byte>, i: nat, acc: byte)
    requires i < |chars|
    ensures Lowest(chars[..i + 1], acc) == Min(Lowest(chars[..i], acc), chars[i])
    ensures Highest(chars[..i + 1], acc) == Max(Highest(chars[..i], acc), chars[i])
    decreases i
  {
    if i > 0 {
      assert chars[..i + 1][1..] == chars[1..][..i] && chars[..i][1..] == chars[1..][..i - 1];
      LowestStep(chars[1..], i - 1, Min(acc, chars[0]));
      LowestStep(chars[1..], i - 1, Max(acc, chars[0]));
    }
  }

  // The range of characters of a sparse node and one more.
  method Range(chars: seq<byte>, c: byte) returns (newMin: byte, newMax: byte)
    ensures newMin == Min(Lowest(chars, 255), c) && newMax == Max(Highest(chars, 0), c)
  {
    newMin, newMax := 255, 0;
    var i := 0;
    while i != |chars|
      invariant i <= |chars|
      invariant newMin == Lowest(chars[..i], 255) && newMax == Highest(chars[..i], 0)
    {
      var c2 := chars[i];
      LowestStep(chars, i, 255);
      LowestStep(chars, i, 0);
      newMin := if newMin < c2 then newMin else c2;
      newMax := if newMax > c2 then newMax else c2;
      i := i + 1;
    }
    assert chars[..i] == chars;
    newMin := if newMin < c then newMin else c;
    newMax := if newMax > c then newMax else c;
  }

  // A full sparse array becomes a new dense node; the old one is freed.  The new node
  // starts with a count of zero, whatever the old one had.
  method SparseToDense(self: TrieNode, c: byte) returns (n: TrieNode)
    requires self.layout.Sparse? && |self.layout.chars| == |self.child| == SPARSE_MAX
    requires Distinct(self.layout.chars) && c !in self.layout.chars
    ensures fresh(n)
    ensures HasRoom(n, Table(self.layout, self.child), c)
    ensures n.refcount == 0 && n.prefix == self.prefix
  {
    var chars := self.layout.chars;
    var newMin, newMax := Range(chars, c);
    RangeBounds(chars, c);
    n := new TrieNode(0, self.prefix, Dense(newMin, newMax, |chars| + 1),
      seq(newMax - newMin + 1, _ => null));
    SpreadNone<TrieNode?>(null, newMin, newMax);
    var i := 0;
    while i != |chars|
      invariant i <= |chars| && |n.child| - 1 == newMax - newMin
      invariant n.refcount == 0 && n.prefix == self.prefix
      invariant n.layout == Dense(newMin, newMax, |chars| + 1)
      invariant self.layout == Sparse(chars) && |self.child| == |chars|
      invariant n.child == Spread(chars[..i], self.child[..i], null, newMin, newMax)
    {
      assert chars[..i + 1] == chars[..i] + [chars[i]];
      assert self.child[..i + 1] == self.child[..i] + [self.child[i]];
      SpreadAppend(chars[..i], self.child[..i], null, newMin, newMax, chars[i], self.child[i]);
      n.child := n.child[chars[i] - newMin := self.child[i]];
      i := i + 1;
    }
    assert chars[..i] == chars && self.child[..i] == self.child;
    assert IndexOf(chars, c) == |chars|;
    assert n.child[c - newMin := null] == n.child;
  }

  // ---------- Step 4 of grid_trie_subscribe ----------

  // One node of a chain: ten characters, then one more that leads to the next node.
  ghost predicate Link(n: TrieNode, data: seq<byte>, next: TrieNode)
    reads n
  {
    && |data| > PREFIX_MAX
    && n.refcount == 0 && n.prefix == data[..PREFIX_MAX]
    && n.layout == Sparse([data[PREFIX_MAX]]) && n.child == [next]
  }

  const STEP: nat := PREFIX_MAX + 1

  ghost predicate Links(ns: seq<TrieNode>, data: seq<byte>)
    reads ns
  {
    forall k :: 0 <= k < |ns| - 1 ==> STEP * k <= |data| && Link(ns[k], data[STEP * k..], ns[k + 1])
  }

  ghost function ChainImage(ns: seq<TrieNode>, data: seq<byte>): Image
    requires ns != [] && |data| >= STEP * (|ns| - 1)
  {
    if |ns| == 1 then Cell(ns[0], 1, data, Table(Sparse([]), []))
    else Cell(ns[0], 0, data[..PREFIX_MAX],
           Table(Sparse([data[PREFIX_MAX]]), [ChainImage(ns[1..], data[STEP..])]))
  }

  lemma LinksTail(ns: seq<TrieNode>, data: seq<byte>)
    requires |ns| > 1 && Links(ns, data)
    ensures |data| > PREFIX_MAX && Links(ns[1..], data[STEP..])
  {
    assert data[STEP * 0..] == data;
    assert Link(ns[0], data[STEP * 0..], ns[1]);
    forall k | 0 <= k < |ns[1..]| - 1
      ensures STEP * k <= |data[STEP..]| && Link(ns[1..][k], data[STEP..][STEP * k..], ns[1..][k + 1])
    {
      assert Link(ns[k + 1], data[STEP * (k + 1)..], ns[k + 2]);
      assert data[STEP..][STEP * k..] == data[STEP * (k + 1)..];
    }
  }

  lemma {:induction false} ChainMatches(ns: seq<TrieNode>, data: seq<byte>)
    requires ns != [] && Distinct(ns) && Links(ns, data)
    requires STEP * (|ns| - 1) <= |data| <= STEP * (|ns| - 1) + PREFIX_MAX
    requires Holds(ns[|ns| - 1], 1, data[STEP * (|ns| - 1)..], Table(Sparse([]), []))
    ensures var im := ChainImage(ns, data);
      && Nodes(im) == (set n | n in ns) && im.node == ns[0]
      && Matches(im) && Separate(im) && AsTree(im) == Chain(data)
    decreases |ns|
  {
    if |ns| > 1 {
      LinksTail(ns, data);
      assert data[STEP..][STEP * (|ns| - 2)..] == data[STEP * (|ns| - 1)..];
      ChainMatches(ns[1..], data[STEP..]);
      assert Link(ns[0], data[STEP * 0..], ns[1]) && data[STEP * 0..] == data;
      var im := ChainImage(ns, data);
      var below := ChainImage(ns[1..], data[STEP..]);
      assert im.kids.slots == [below] && im.kids.slots[0] == below;
      assert Nodes(im) == {ns[0]} + Nodes(below);
      assert Addrs(im.kids.slots) == [ns[1]];
      assert AsTrees([below]) == [AsTree(below)];
      assert ns == [ns[0]] + ns[1..];
    } else {
      assert data[STEP * 0..] == data;
    }
  }

  // Create new nodes for the remaining part of the subscription and count one
  // subscriber at the last of them.
  method BuildChain(data: seq<byte>) returns (root: TrieNode, ghost im: Image)
    ensures fresh(Nodes(im)) && Matches(im) && Separate(im)
    ensures Addr(im) == root && AsTree(im) == Chain(data)
  {
    hide Matches, Separate, Nodes, AsTree, Chain;
    var rest := data;
    var node := new TrieNode(0, [], Sparse([]), []);
    root := node;
    ghost var ns := [node];
    assert data[STEP * 0..] == data;
    while |rest| > PREFIX_MAX
      invariant ns != [] && node == ns[|ns| - 1] && root == ns[0] && Distinct(ns)
      invariant fresh(node) && forall n :: n in ns ==> fresh(n)
      invariant STEP * (|ns| - 1) <= |data| && rest == data[STEP * (|ns| - 1)..]
      invariant node.refcount == 0 && node.layout == Sparse([]) && node.child == []
      invariant Links(ns, data)
      decreases |rest|
    {
      var next := new TrieNode(0, [], Sparse([]), []);
      node.prefix := rest[..PREFIX_MAX];
      node.layout := Sparse([rest[PREFIX_MAX]]);
      node.child := [next];
      ghost var k := |ns| - 1;
      assert Link(node, data[STEP * k..], next);
      ns := ns + [next];
      rest := rest[PREFIX_MAX + 1..];
      assert rest == data[STEP * (k + 1)..];
      node := next;
    }
    node.prefix := rest;
    node.refcount := node.refcount + 1;
    ChainMatches(ns, data);
    im := ChainImage(ns, data);
  }

  // ---------- Removing a child ----------

  // What the array becomes once the child at slot i is gone.
  ghost predicate HasDropped(n: TrieNode, before: Table<TrieNode?>, i: nat, c: byte)
    requires Sized(before) && i < |before.slots|
    reads n
  {
    Shrink(before, null, i, c) == Some(Table(n.layout, n.child))
  }

  method RemoveSparse(self: TrieNode, c: byte, ghost i: nat)
    requires self.layout.Sparse? && |self.layout.chars| == |self.child| <= SPARSE_MAX
    requires Slot(self.layout, c) == Some(i)
    modifies self
    ensures HasDropped(self, old(Table(self.layout, self.child)), i, c)
    ensures self.refcount == old(self.refcount) && self.prefix == old(self.prefix)
  {
    var chars := self.layout.chars;
    var index := 0;
    while index != |chars|
      invariant index <= i
    {
      if chars[index] == c {
        break;
      }
      index := index + 1;
    }
    assert index == i;
    self.layout := Sparse(chars[..index] + chars[index + 1..]);
    self.child := self.child[..index] + self.child[index + 1..];
  }

  // The array stays dense; adjust its limits if the child was at either end.
  method TrimDense(self: TrieNode, c: byte, ghost i: nat)
    requires self.layout.Dense? && Sized(Table(self.layout, self.child))
    requires self.layout.nbr > SPARSE_MAX + 1 && Slot(self.layout, c) == Some(i) && self.child[i] == null
    requires Shrink(Table(self.layout, self.child), null, i, c).Some?
    modifies self
    ensures HasDropped(self, old(Table(self.layout, self.child)), i, c)
    ensures self.refcount == old(self.refcount) && self.prefix == old(self.prefix)
  {
    var Dense(min, max, nbr) := self.layout;
    assert self.child[i := null] == self.child;
    if c == min {
      var k := 0;
      while k != max - min + 1
        invariant k <= |self.child|
        invariant forall j :: 0 <= j < k ==> self.child[j] == null
      {
        if self.child[k] != null {
          break;
        }
        k := k + 1;
      }
      assert FirstLive(self.child, null) == k;
      self.child := self.child[k..];
      self.layout := Dense(min + k, max, nbr - 1);
    } else if c == max {
      var k := max - min;
      while k != 0
        invariant 0 <= k < |self.child|
        invariant forall j :: k < j < |self.child| ==> self.child[j] == null
      {
        if self.child[k] != null {
          break;
        }
        k := k - 1;
      }
      assert k > 0 ==> self.child[1..][k - 1] == self.child[k];
      assert LastLive(self.child[1..], null) == k;
      self.child := self.child[..k + 1];
      self.layout := Dense(min, min + k, nbr - 1);
    } else {
      self.layout := Dense(min, max, nbr - 1);
    }
  }

  lemma {:induction false} GatherStep<T>(s: seq<T>, nil: T, min: nat, i: nat)
    requires i < |s| && min + |s| <= 256
    ensures var (chars, kept) := Gather(s[..i], nil, min);
      Gather(s[..i + 1], nil, min) ==
        if s[i] == nil then (chars, kept) else (chars + [min + i], kept + [s[i]])
    decreases i
  {
    if i > 0 {
      assert s[..i + 1][1..] == s[1..][..i] && s[..i][1..] == s[1..][..i - 1];
      GatherStep(s[1..], nil, min + 1, i - 1);
      var (chars, kept) := Gather(s[1..][..i - 1], nil, min + 1);
      assert [min] + (chars + [min + i]) == ([min] + chars) + [min + i];
      assert [s[0]] + (kept + [s[i]]) == ([s[0]] + kept) + [s[i]];
    } else {
      assert s[..1][1..] == [] && s[..0] == [];
      assert Gather<T>([], nil, min + 1) == ([], []) == Gather<T>([], nil, min);
      assert s[0] != nil ==> Gather(s[..1], nil, min) == ([min] + [], [s[0]] + []);
      assert [min] + [] == [] + [min] && [s[0]] + [] == [] + [s[0]];
    }
  }

  // A dense array that is down to eight children becomes a new sparse node; the old
  // one is freed.  The new node starts with a count of zero.
  method DenseToSparse(self: TrieNode, c: byte, ghost i: nat) returns (n: TrieNode)
    requires self.layout.Dense? && Sized(Table(self.layout, self.child))
    requires self.layout.nbr <= SPARSE_MAX + 1 && Slot(self.layout, c) == Some(i) && self.child[i] == null
    requires Shrink(Table(self.layout, self.child), null, i, c).Some?
    ensures fresh(n)
    ensures HasDropped(n, Table(self.layout, self.child), i, c)
    ensures n.refcount == 0 && n.prefix == self.prefix
  {
    var min := self.layout.min;
    assert self.child[i := null] == self.child;
    var chars: seq<byte>, kept: seq<TrieNode?> := [], [];
    var k := 0;
    while k != |self.child|
      invariant k <= |self.child|
      invariant (chars, kept) == Gather(self.child[..k], null, min)
    {
      GatherStep(self.child, null, min, k);
      var ch := self.child[k];
      if ch != null {
        chars := chars + [k + min];
        kept := kept + [ch];
      }
      k := k + 1;
    }
    assert self.child[..k] == self.child;
    assert |kept| == SPARSE_MAX;
    n := new TrieNode(0, self.prefix, Sparse(chars), kept);
  }
}

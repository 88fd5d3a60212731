/** How compact a trie is kept: no node without subscribers is left in front of an only child
    that it could be merged with. */
module TrieTight {
  import opened Bytes
  import opened ChildTable
  import opened TrieTree
  import opened TrieSubscribe
  import opened TrieUnsubscribe
  import opened TrieMatch

  // A node with no subscribers and one child, and the prefixes of both fit into one.
  predicate Loose(t: Tree) {
    && t.Node? && t.refs == 0 && t.kids.layout.Sparse? && |t.kids.slots| == 1
    && t.kids.slots[0].Node? && |t.prefix| + 1 + |t.kids.slots[0].prefix| <= PREFIX_MAX
  }

  ghost predicate Tight(t: Tree) {
    t.Node? ==> !Loose(t) && forall k :: k in t.kids.slots ==> Tight(k)
  }

  ghost predicate TightBelow(t: Tree)
    requires t.Node?
  {
    forall k :: k in t.kids.slots ==> Tight(k)
  }

  // ---------- The places where nodes change ----------

  lemma CompactTight(t: Tree)
    requires Nodelike(t) && TightBelow(t)
    ensures Sized(t.kids) && (t.kids.layout.Sparse? ==> Nil !in t.kids.slots)
    ensures Tight(Compact(t)) && Compact(t).Node? && |Compact(t).prefix| >= |t.prefix|
  {
    if Loose(t) {
      var ch := t.kids.slots[0];
      assert ch in t.kids.slots && Tight(ch);
      assert !Loose(ch);
    } else if t.refs == 0 && t.kids.layout.Sparse? && |t.kids.slots| == 1 {
      assert t.kids.slots[0] in t.kids.slots;
    }
  }

  // The only child of a node that has just been made.
  lemma SoleTight(p: seq<byte>, c: byte, u: Tree)
    requires Tight(u)
    ensures TightBelow(Node(0, p, Sole(c, u)))
  {
    assert forall k :: k in Sole(c, u).slots ==> k == u;
  }

  lemma {:induction false} ChainTight(data: seq<byte>)
    ensures Tight(Chain(data))
  {
    if |data| > PREFIX_MAX {
      ChainTight(data[PREFIX_MAX + 1..]);
      SoleTight(data[..PREFIX_MAX], data[PREFIX_MAX], Chain(data[PREFIX_MAX + 1..]));
    }
  }

  lemma SplitTight(t: Tree, pos: nat)
    requires TrieTree.Valid(t) && t.Node? && Tight(t) && pos < |t.prefix|
    ensures Sized(t.kids) && (t.kids.layout.Sparse? ==> Nil !in t.kids.slots)
    ensures Split(t, pos).Node? && TightBelow(Split(t, pos)) && Tight(Split(t, pos).(refs := 1))
    ensures Split(t, pos).prefix == t.prefix[..pos]
  {
    hide Compact;
    CutNodelike(t, pos);
    var cut := t.(prefix := t.prefix[pos + 1..]);
    CompactTight(cut);
    SoleTight(t.prefix[..pos], t.prefix[pos], Compact(cut));
  }

  // A new child beside others, or below a node with subscribers.
  lemma BranchTight(t: Tree, c: byte, u: Tree)
    requires Nodelike(t) && Sized(t.kids) && At(t.kids, Nil, c) == Nil
    requires TightBelow(t) && Tight(u) && (t.refs > 0 || t.kids.slots != [])
    ensures Tight(Branch(t, c, u)) && Branch(t, c, u).Node? && Branch(t, c, u).prefix == t.prefix
  {
    GrowSlots(t.kids, c, u);
    assert Tight(Nil);
    assert forall k :: k in Branch(t, c, u).kids.slots ==> k == Nil || k == u || k in t.kids.slots;
  }

  lemma FoundTight(t: Tree)
    requires TrieTree.Valid(t) && Tight(t)
    ensures var r := Found(t); r.Done? && Tight(r.tree) && (r.tree.Node? ==> t.Node? && |r.tree.prefix| >= |t.prefix|)
  {
    hide Compact;
    if t.Node? && t.refs == 1 && t.kids.slots != [] {
      CompactTight(t.(refs := 0));
    }
  }

  lemma PruneTight(t: Tree, i: nat, c: byte)
    requires TrieTree.Valid(t) && t.Node? && TightBelow(t)
    requires Slot(t.kids.layout, c) == Some(i) && t.kids.slots[i] != Nil
    ensures var r := Prune(t, i, c); r.Done? && Tight(r.tree) && (r.tree.Node? ==> |r.tree.prefix| >= |t.prefix|)
  {
    hide Compact, Shrink, Prune;
    PruneIs(t, i, c);
    ShrinkSlotsTight(t, i, c);
    var n := Node(if Thins(t.kids) then 0 else t.refs, t.prefix, Shrink(t.kids, Nil, i, c).value);
    if t.kids.layout.Dense? {
      if n.kids.layout.Sparse? { ThinnedSize(t, i, c); }
    } else if !(n.kids.slots == [] && n.refs == 0) {
      CompactTight(n);
    }
  }

  lemma ShrinkSlotsTight(t: Tree, i: nat, c: byte)
    requires TrieTree.Valid(t) && t.Node? && TightBelow(t)
    requires Slot(t.kids.layout, c) == Some(i) && t.kids.slots[i] != Nil
    ensures Shrink(t.kids, Nil, i, c).Some?
    ensures forall refs: nat {:trigger Node(refs, t.prefix, Shrink(t.kids, Nil, i, c).value)} ::
      TightBelow(Node(refs, t.prefix, Shrink(t.kids, Nil, i, c).value))
  {
    ShrinkAt(t.kids, Nil, i, c);
    ShrinkSlots(t.kids, i, c);
    assert Tight(Nil);
  }

  // A dense array that has become sparse is full.
  lemma ThinnedSize(t: Tree, i: nat, c: byte)
    requires TrieTree.Valid(t) && t.Node? && t.kids.layout.Dense?
    requires Slot(t.kids.layout, c) == Some(i) && t.kids.slots[i] != Nil
    requires Shrink(t.kids, Nil, i, c).Some? && Shrink(t.kids, Nil, i, c).value.layout.Sparse?
    ensures |Shrink(t.kids, Nil, i, c).value.slots| == SPARSE_MAX
  {
    ShrinkConvert(t.kids, Nil, i, c);
  }

  // ---------- Unsubscribing ----------

  // Another subtree in a slot, with a prefix that is no shorter.
  lemma SlotTight(t: Tree, i: nat, w: Tree)
    requires TrieTree.Valid(t) && t.Node? && Tight(t) && i < |t.kids.slots|
    requires t.kids.slots[i].Node? && w.Node? && Tight(w) && |w.prefix| >= |t.kids.slots[i].prefix|
    ensures Tight(t.(kids := t.kids.(slots := t.kids.slots[i := w])))
  {
    var r := t.(kids := t.kids.(slots := t.kids.slots[i := w]));
    assert forall k :: k in r.kids.slots ==> k == w || k in t.kids.slots;
  }

  /** Unsubscribing leaves a trie as compact as it was: every node that has lost its last
      subscriber, or a child, has been merged if it can be. */
  lemma {:induction false} UnsubscribeTight(t: Tree, data: seq<byte>)
    requires TrieTree.Valid(t) && Tight(t) && !MeetsNull(t, data)
    ensures Unsubscribe(t, data).Done?
    ensures var u := Unsubscribe(t, data).tree;
      Tight(u) && (u.Node? ==> t.Node? && |u.prefix| >= |t.prefix|)
    decreases t
  {
    hide TrieTree.Valid, ChildTable.Valid, Sized, Child, Prune, Found, Loose, Slot;
    SoundExact(t, data);
    if t == Nil || data == [] || data == t.prefix {
      FoundTight(t);
      UnsubscribeFound(t, data);
    } else if t.prefix <= data {
      var n := |t.prefix|;
      var c := data[n];
      UnsubscribeStep(t, data);
      WalkDeeper(t, data);
      var slot := Slot(t.kids.layout, c);
      if slot.Some? {
        var u := Child(t, c);
        assert u in t.kids.slots;
        UnsubscribeTight(u, data[n + 1..]);
        var r := Unsubscribe(u, data[n + 1..]);
        if r.rc == 0 || r.tree != Nil {
          NothingGone(u, data[n + 1..]);
          SlotTight(t, slot.value, r.tree);
        } else {
          PruneTight(t, slot.value, c);
        }
      }
    } else {
      UnsubscribeMismatch(t, data);
    }
  }

  lemma NothingGone(t: Tree, data: seq<byte>)
    requires TrieTree.Valid(t) && t.Node?
    ensures Unsubscribe(t, data).Done? && Unsubscribe(t, data).rc == 0 ==> Unsubscribe(t, data).tree.Node?
  {
  }

  lemma UnsubscribeFound(t: Tree, data: seq<byte>)
    requires TrieTree.Valid(t) && !MeetsNull(t, data)
    requires t == Nil || data == [] || data == t.prefix
    ensures Unsubscribe(t, data) == Found(t)
  {
  }

  lemma UnsubscribeMismatch(t: Tree, data: seq<byte>)
    requires TrieTree.Valid(t) && t.Node? && data != [] && !(t.prefix <= data)
    ensures Unsubscribe(t, data) == Done(0, t)
  {
  }

  // ---------- Subscribing ----------

  /** A subscription cuts the prefix of an only child so short that it would fit into the node
      above, which has no subscribers; the source does not look at that one again. */
  predicate Loosens(t: Tree, data: seq<byte>)
    requires TrieTree.Valid(t)
  {
    && t.Node? && t.prefix <= data && |data| > |t.prefix|
    && match Slot(t.kids.layout, data[|t.prefix|])
       case None => false
       case Some(i) =>
         var u := t.kids.slots[i];
         var rest := data[|t.prefix| + 1..];
         && u.Node?
         && (Loosens(u, rest)
             || (t.refs == 0 && t.kids.layout.Sparse? && |t.kids.slots| == 1
                 && Common(u.prefix, rest) < |u.prefix|
                 && |t.prefix| + 1 + Common(u.prefix, rest) <= PREFIX_MAX))
  }

  // The prefix of a node after a subscription.
  lemma SubscribePrefix(t: Tree, data: seq<byte>)
    requires TrieTree.Valid(t) && t.Node?
    ensures Subscribe(t, data).Node? && |Subscribe(t, data).prefix| == Common(t.prefix, data)
  {
  }

  /** A subscription keeps a trie compact exactly when it does not loosen it. */
  lemma {:induction false} SubscribeTight(t: Tree, data: seq<byte>)
    requires TrieTree.Valid(t) && Tight(t)
    ensures TrieTree.Valid(Subscribe(t, data))
    ensures Tight(Subscribe(t, data)) <==> !Loosens(t, data)
    decreases t
  {
    hide TrieTree.Valid, ChildTable.Valid, Sized, Child, Loose, Slot, Split, Branch, Subscribe, Loosens, Nodelike;
    SubscribeCount(t, data, data);
    SubscribeEnds(t, data);
    if t == Nil {
      ChainTight(data);
      LoosensOnly(t, data);
    } else {
      var pos := Common(t.prefix, data);
      CommonPrefix(t.prefix, data);
      LoosensOnly(t, data);
      if pos < |t.prefix| {
        SplitsTight(t, data);
      } else if |data| == pos {
        HereTight(t, data);
      } else if Child(t, data[pos]) == Nil {
        BranchesTight(t, data);
      } else {
        DeeperTight(t, data);
      }
    }
  }

  lemma LoosensOnly(t: Tree, data: seq<byte>)
    requires TrieTree.Valid(t)
    ensures Loosens(t, data) ==>
      t.Node? && t.prefix <= data && |data| > |t.prefix| && Sized(t.kids) && Child(t, data[|t.prefix|]) != Nil
  {
  }

  lemma SplitsTight(t: Tree, data: seq<byte>)
    requires TrieTree.Valid(t) && t.Node? && Tight(t) && Common(t.prefix, data) < |t.prefix|
    ensures Tight(Subscribe(t, data))
  {
    hide TrieTree.Valid, ChildTable.Valid, Split, Compact, Branch, Chain, Subscribe, Tight;
    var pos := Common(t.prefix, data);
    var rest := data[pos..];
    SubscribeSplitIs(t, data);
    SplitTight(t, pos);
    SplitOk(t);
    if rest != [] {
      SplitShape(t, pos, rest[0]);
      ChainTight(rest[1..]);
      SplitNodelike(t, pos);
      BranchTight(Split(t, pos), rest[0], Chain(rest[1..]));
    }
  }

  lemma SplitNodelike(t: Tree, pos: nat)
    requires TrieTree.Valid(t) && t.Node? && pos < |t.prefix|
    ensures Sized(t.kids) && (t.kids.layout.Sparse? ==> Nil !in t.kids.slots)
    ensures Nodelike(Split(t, pos)) && Split(t, pos).kids.slots != []
  {
    hide Compact;
    CutNodelike(t, pos);
    CompactValid(t.(prefix := t.prefix[pos + 1..]));
    SoleNodelike(t.prefix[..pos], t.prefix[pos], Compact(t.(prefix := t.prefix[pos + 1..])));
  }

  lemma HereTight(t: Tree, data: seq<byte>)
    requires TrieTree.Valid(t) && t.Node? && Tight(t) && data == t.prefix
    ensures Tight(Subscribe(t, data))
  {
    CommonPrefix(t.prefix, data);
    assert Subscribe(t, data) == t.(refs := t.refs + 1);
  }

  lemma BranchesTight(t: Tree, data: seq<byte>)
    requires TrieTree.Valid(t) && t.Node? && Tight(t) && t.prefix <= data && |data| > |t.prefix|
    requires Sized(t.kids) && Child(t, data[|t.prefix|]) == Nil
    ensures Tight(Subscribe(t, data))
  {
    hide Branch, Chain;
    var n := |t.prefix|;
    CommonPrefix(t.prefix, data);
    var rest := data[n..];
    assert rest[0] == data[n];
    assert Subscribe(t, data) == Branch(t, rest[0], Chain(rest[1..]));
    ChainTight(rest[1..]);
    BranchTight(t, rest[0], Chain(rest[1..]));
  }

  lemma DeeperTight(t: Tree, data: seq<byte>)
    requires TrieTree.Valid(t) && t.Node? && Tight(t) && t.prefix <= data && |data| > |t.prefix|
    requires Sized(t.kids) && Child(t, data[|t.prefix|]).Node?
    ensures Tight(Subscribe(t, data)) <==> !Loosens(t, data)
    decreases t, 0
  {
    hide TrieTree.Valid, ChildTable.Valid, Subscribe, Loose;
    var n := |t.prefix|;
    var c := data[n];
    ChildOk(t, c);
    DeeperIs(t, data);
    var i := Slot(t.kids.layout, c).value;
    var u := t.kids.slots[i];
    assert u in t.kids.slots;
    SubscribeTight(u, data[n + 1..]);
    SubscribePrefix(u, data[n + 1..]);
    CommonPrefix(u.prefix, data[n + 1..]);
    SlotLoose(t, i, Subscribe(u, data[n + 1..]));
  }

  lemma DeeperIs(t: Tree, data: seq<byte>)
    requires TrieTree.Valid(t) && t.Node? && t.prefix <= data && |data| > |t.prefix|
    requires Sized(t.kids) && Child(t, data[|t.prefix|]).Node?
    ensures var slot := Slot(t.kids.layout, data[|t.prefix|]); var rest := data[|t.prefix| + 1..];
      && slot.Some? && slot.value < |t.kids.slots| && t.kids.slots[slot.value] == Child(t, data[|t.prefix|])
      && TrieTree.Valid(Child(t, data[|t.prefix|])) && Child(t, data[|t.prefix|]) < t
      && Subscribe(t, data) ==
           t.(kids := t.kids.(slots := t.kids.slots[slot.value := Subscribe(Child(t, data[|t.prefix|]), rest)]))
  {
    CommonPrefix(t.prefix, data);
    var rest := data[|t.prefix|..];
    assert rest[0] == data[|t.prefix|] && rest[1..] == data[|t.prefix| + 1..];
  }

  // A node with another subtree in a slot.
  lemma SlotLoose(t: Tree, i: nat, w: Tree)
    requires TrieTree.Valid(t) && t.Node? && Tight(t) && i < |t.kids.slots| && t.kids.slots[i].Node? && w.Node?
    ensures var r := t.(kids := t.kids.(slots := t.kids.slots[i := w]));
      Tight(r) <==>
        && Tight(w)
        && !(t.refs == 0 && t.kids.layout.Sparse? && |t.kids.slots| == 1
             && |w.prefix| < |t.kids.slots[i].prefix| && |t.prefix| + 1 + |w.prefix| <= PREFIX_MAX)
  {
    var r := t.(kids := t.kids.(slots := t.kids.slots[i := w]));
    assert r.kids.slots[i] == w;
    assert w in r.kids.slots;
    assert forall k :: k in r.kids.slots ==> k == w || k in t.kids.slots;
    assert !Loose(t);
  }

  // ---------- Runs ----------

  // A subscription of the run loosens the trie.
  ghost predicate RunLoosens(t: Tree, ops: seq<Op>)
    requires TrieTree.Valid(t)
    decreases |ops|
  {
    ops != [] &&
    (|| (ops[0].Sub? && Loosens(t, ops[0].data))
     || (match Apply(t, ops[0])
         case Fault => false
         case Done(_, u) => TrieTree.Valid(u) && RunLoosens(u, ops[1..])))
  }

  // Every trie on the way is compact.
  ghost predicate StaysTight(t: Tree, ops: seq<Op>)
    requires TrieTree.Valid(t)
    decreases |ops|
  {
    && Tight(t)
    && (ops == [] ||
        match Apply(t, ops[0])
        case Fault => true
        case Done(_, u) => TrieTree.Valid(u) ==> StaysTight(u, ops[1..]))
  }

  lemma StepTight(t: Tree, op: Op)
    requires TrieTree.Valid(t) && Tight(t) && !(op.Unsub? && MeetsNull(t, op.data))
    ensures Apply(t, op).Done? && TrieTree.Valid(Apply(t, op).tree)
    ensures Tight(Apply(t, op).tree) <==> !(op.Sub? && Loosens(t, op.data))
  {
    hide TrieTree.Valid, Tight, Loosens, MeetsNull, Subscribe, Unsubscribe;
    StepSound(t, op);
    match op
    case Sub(data) => SubscribeTight(t, data);
    case Unsub(data) => UnsubscribeTight(t, data);
  }

  /** A run in which no null pointer is met keeps the trie compact all along exactly when no
      subscription loosens it. */
  lemma {:induction false} RunTightExact(t: Tree, ops: seq<Op>)
    requires TrieTree.Valid(t) && Tight(t) && !RunMeetsNull(t, ops)
    ensures StaysTight(t, ops) <==> !RunLoosens(t, ops)
    decreases |ops|
  {
    hide TrieTree.Valid, Tight, Loosens, MeetsNull, Apply;
    if ops != [] {
      StepTight(t, ops[0]);
      var u := Apply(t, ops[0]).tree;
      if Tight(u) {
        RunTightExact(u, ops[1..]);
      } else {
        NotTight(u, ops[1..]);
      }
    }
  }

  lemma NotTight(t: Tree, ops: seq<Op>)
    requires TrieTree.Valid(t) && !Tight(t)
    ensures !StaysTight(t, ops)
  {
  }

  // ---------- A trie that is loosened ----------

  function Tail(): seq<byte> { seq(PREFIX_MAX, _ => 0) }

  // A node with one child whose prefix is too long to be merged.
  function Long(refs: nat): Tree {
    Node(refs, [], Sole(0, Node(1, Tail(), Table(Sparse([]), []))))
  }

  lemma LongIs(refs: nat)
    ensures TrieTree.Valid(Long(refs)) && Tight(Long(refs)) && Shaped(Long(refs))
    ensures Chain(Tail()) == Node(1, Tail(), Table(Sparse([]), []))
  {
    var u := Node(1, Tail(), Table(Sparse([]), []));
    assert TrieTree.Valid(u) && Tight(u);
    assert forall k :: k in Long(refs).kids.slots ==> k == u;
    ValidIsShaped(Long(refs));
  }

  /** With an empty string and one of eleven bytes subscribed to, unsubscribing from the former
      leaves a node that cannot be merged; then subscribing to the first byte alone cuts the
      prefix below it, and it could. */
  lemma LoosenHappens()
    ensures var ops := [Sub([]), Sub([0] + Tail()), Unsub([])];
      && TrieTree.Valid(Nil) && Outlives(Nil, ops) == Some(Long(0))
      && TrieTree.Valid(Long(0)) && Tight(Long(0)) && Loosens(Long(0), [0])
  {
    hide Outlives, Loosens, Tail;
    NilIsValid();
    LongIs(0);
    LongIs(1);
    LongSteps();
    OutlivesStep(Long(1), Unsub([]), Long(0), []);
    OutlivesStep(Chain([]), Sub([0] + Tail()), Long(1), [Unsub([])]);
    OutlivesStep(Nil, Sub([]), Chain([]), [Sub([0] + Tail())] + [Unsub([])]);
    assert [Unsub([])] + [] == [Unsub([])];
    assert [Sub([])] + ([Sub([0] + Tail())] + [Unsub([])]) == [Sub([]), Sub([0] + Tail()), Unsub([])];
    LongLoosens();
  }

  lemma OutlivesStep(t: Tree, op: Op, u: Tree, ops: seq<Op>)
    requires TrieTree.Valid(t) && TrieTree.Valid(u) && Apply(t, op).Done? && Apply(t, op).tree == u
    ensures Outlives(t, [op] + ops) == Outlives(u, ops)
    ensures Outlives(u, []) == Some(u)
  {
    assert ([op] + ops)[1..] == ops;
  }

  lemma LongSteps()
    ensures TrieTree.Valid(Nil) && Subscribe(Nil, []) == Chain([])
    ensures TrieTree.Valid(Chain([])) && Subscribe(Chain([]), [0] + Tail()) == Long(1)
    ensures TrieTree.Valid(Long(1)) && Unsubscribe(Long(1), []) == Done(1, Long(0))
  {
    LongIs(1);
    ChainCount([], []);
    assert ([0] + Tail())[0..] == [0] + Tail() && ([0] + Tail())[1..] == Tail();
    assert [] + [0] == [0] && [] + [Chain(Tail())] == [Chain(Tail())];
  }

  lemma LongLoosens()
    ensures TrieTree.Valid(Long(0)) && Loosens(Long(0), [0])
  {
    LongIs(0);
    assert IndexOf([0], 0) == 0;
    assert [0][1..] == [];
  }
}

/** Unsubscribing: what grid_trie_unsubscribe does to the counts of all strings,
    for strings that are subscribed to and for strings that are not. */
module TrieUnsubscribe {
  import opened Bytes
  import opened ChildTable
  import opened TrieTree
  import opened TrieSubscribe

  // ---------- The two places where a node changes ----------

  lemma FoundEffect(t: Tree, s: seq<byte>)
    requires TrieTree.Valid(t) && t.Node? && t.refs > 0
    ensures Shaped(t) && Found(t).Done?
    ensures var Done(rc, u) := Found(t);
      && TrieTree.Valid(u) && Shaped(u)
      && rc == (if t.refs == 1 then 1 else 0)
      && (u == Nil ==> rc == 1)
      && Count(u, s) == Count(t, s) - (if s == t.prefix then 1 else 0)
  {
    hide Compact, Count, Shaped, Child;
    ValidIsShaped(t);
    CountHere(t, s);
    var Done(rc, u) := Found(t);
    if t.refs == 1 {
      var cut := t.(refs := 0);
      assert Nodelike(cut);
      Uncounted(t, s);
      if t.kids.slots != [] {
        CompactCount(cut, s);
        CompactValid(cut);
      } else {
        EmptyCount(cut, s);
      }
    } else {
      FewerRefs(t, s);
    }
    ValidIsShaped(u);
  }

  lemma FewerRefs(t: Tree, s: seq<byte>)
    requires Shaped(t) && t.Node? && t.refs > 0
    ensures Shaped(t.(refs := t.refs - 1))
    ensures Count(t.(refs := t.refs - 1), s) == Count(t, s) - if s == t.prefix then 1 else 0
  {
  }

  lemma Uncounted(t: Tree, s: seq<byte>)
    requires Shaped(t) && t.Node? && t.refs == 1
    ensures Shaped(t.(refs := 0))
    ensures Count(t.(refs := 0), s) == Count(t, s) - if s == t.prefix then 1 else 0
  {
    FewerRefs(t, s);
  }

  // A dense array that loses its ninth child becomes sparse, and the node its count.
  predicate Thins(kids: Table<Tree>) {
    kids.layout.Dense? && kids.layout.nbr <= SPARSE_MAX + 1
  }

  lemma {:induction false} GatherSlots(slots: seq<Tree>, min: nat)
    requires min + |slots| <= 256
    ensures forall k :: k in Gather(slots, Nil, min).1 ==> k in slots
  {
    if slots != [] { GatherSlots(slots[1..], min + 1); }
  }

  lemma ShrinkSlots(kids: Table<Tree>, i: nat, c: byte)
    requires Sized(kids) && i < |kids.slots| && Shrink(kids, Nil, i, c).Some?
    ensures forall k :: k in Shrink(kids, Nil, i, c).value.slots ==> k == Nil || k in kids.slots
  {
    if kids.layout.Dense? {
      GatherSlots(kids.slots[i := Nil], kids.layout.min);
    }
  }

  lemma ShrinkNonempty(kids: Table<Tree>, i: nat, c: byte)
    requires ChildTable.Valid(kids, Nil) && kids.layout.Dense?
    requires Slot(kids.layout, c) == Some(i) && kids.slots[i] != Nil
    ensures Shrink(kids, Nil, i, c).Some? && Shrink(kids, Nil, i, c).value.slots != []
  {
    ShrinkAt(kids, Nil, i, c);
  }

  // The node around the smaller table.
  lemma PruneNode(t: Tree, i: nat, c: byte)
    requires TrieTree.Valid(t) && t.Node?
    requires Slot(t.kids.layout, c) == Some(i) && t.kids.slots[i] != Nil
    ensures Shrink(t.kids, Nil, i, c).Some?
    ensures var n := Node(if Thins(t.kids) then 0 else t.refs, t.prefix, Shrink(t.kids, Nil, i, c).value);
      && Nodelike(n)
      && (Thins(t.kids) <==> t.kids.layout.Dense? && n.kids.layout.Sparse?)
      && (forall d: byte :: Child(n, d) == if d == c then Nil else Child(t, d))
  {
    ShrinkAt(t.kids, Nil, i, c);
    ShrinkSlots(t.kids, i, c);
    var kids := Shrink(t.kids, Nil, i, c).value;
    var n := Node(if Thins(t.kids) then 0 else t.refs, t.prefix, kids);
    forall d: byte ensures Child(n, d) == if d == c then Nil else Child(t, d) {
      assert At(kids, Nil, d) == if d == c then Nil else At(t.kids, Nil, d);
    }
  }

  // What the node around the smaller table counts.
  lemma PrunedCount(t: Tree, n: Tree, c: byte, s: seq<byte>)
    requires Shaped(t) && Shaped(n) && t.Node? && n.Node? && n.prefix == t.prefix
    requires forall d: byte :: Child(n, d) == if d == c then Nil else Child(t, d)
    ensures Count(n, s) ==
      if t.prefix <= s && |s| > |t.prefix| && s[|t.prefix|] == c then 0
      else if s == t.prefix then n.refs
      else Count(t, s)
  {
    hide Child, Shaped;
    CountHere(t, s);
    CountHere(n, s);
    CountNil(s);
  }

  lemma CountNil(s: seq<byte>)
    ensures Shaped(Nil) && forall r :: Count(Nil, r) == 0
  {
  }

  // What becomes of that node.
  lemma PruneIs(t: Tree, i: nat, c: byte)
    requires TrieTree.Valid(t) && t.Node?
    requires Slot(t.kids.layout, c) == Some(i) && t.kids.slots[i] != Nil
    ensures Shrink(t.kids, Nil, i, c).Some?
    ensures var n := Node(if Thins(t.kids) then 0 else t.refs, t.prefix, Shrink(t.kids, Nil, i, c).value);
      && Nodelike(n) && (n.kids.layout.Sparse? ==> Nil !in n.kids.slots)
      && Prune(t, i, c) ==
           Done(1, if t.kids.layout.Dense? then n
                   else if n.kids.slots == [] && n.refs == 0 then Nil
                   else Compact(n))
      && (t.kids.layout.Dense? ==> n.kids.slots != [])
      && (t.kids.layout.Sparse? ==> n.refs == t.refs)
  {
    hide Compact, Shrink;
    PruneNode(t, i, c);
    if t.kids.layout.Dense? { ShrinkNonempty(t.kids, i, c); }
  }

  lemma NodelikeIsValid(n: Tree)
    requires Nodelike(n) && n.kids.slots != []
    ensures TrieTree.Valid(n)
  {
  }

  // Losing a child takes away the strings below it, and the count of a node whose
  // array becomes sparse.
  lemma PruneEffect(t: Tree, i: nat, c: byte, s: seq<byte>)
    requires TrieTree.Valid(t) && t.Node?
    requires Slot(t.kids.layout, c) == Some(i) && t.kids.slots[i] != Nil
    ensures Shaped(t) && Prune(t, i, c).Done? && Prune(t, i, c).rc == 1
    ensures var u := Prune(t, i, c).tree;
      && TrieTree.Valid(u) && Shaped(u)
      && Count(u, s) ==
           if t.prefix <= s && |s| > |t.prefix| && s[|t.prefix|] == c then 0
           else if s == t.prefix && Thins(t.kids) then 0
           else Count(t, s)
  {
    hide TrieTree.Valid, ChildTable.Valid, Shaped, Count, Shrink, Child, Sized, Prune, Compact, Nodelike, Thins;
    ValidIsShaped(t);
    PruneNode(t, i, c);
    PruneIs(t, i, c);
    CountHere(t, s);
    var n := Node(if Thins(t.kids) then 0 else t.refs, t.prefix, Shrink(t.kids, Nil, i, c).value);
    NodelikeIsShaped(n);
    PrunedCount(t, n, c, s);
    if t.kids.layout.Dense? {
      NodelikeIsValid(n);
    } else if n.kids.slots == [] && n.refs == 0 {
      EmptyCount(n, s);
      NilIsValid();
    } else {
      CompactCount(n, s);
      CompactValid(n);
    }
  }

  // A node with neither count nor children has no strings.
  lemma EmptyCount(n: Tree, s: seq<byte>)
    requires Shaped(n) && n.Node? && n.kids.slots == [] && n.refs == 0
    ensures Count(n, s) == 0 && Count(Nil, s) == 0
  {
  }

  lemma NilIsValid()
    ensures TrieTree.Valid(Nil) && Shaped(Nil)
  {
  }

  // ---------- The walk ----------

  // What one level of the recursion makes of the level below.
  function Deeper(t: Tree, i: nat, c: byte, rest: seq<byte>): Outcome
    requires TrieTree.Valid(t) && t.Node? && Slot(t.kids.layout, c) == Some(i)
  {
    match Unsubscribe(t.kids.slots[i], rest)
    case Fault => Fault
    case Done(rc, u) =>
      if rc == 0 || u != Nil then
        Done(if rc == 0 then 0 else 1, t.(kids := t.kids.(slots := t.kids.slots[i := u])))
      else Prune(t, i, c)
  }

  lemma UnsubscribeStep(t: Tree, data: seq<byte>)
    requires TrieTree.Valid(t) && t.Node? && t.prefix <= data && |data| > |t.prefix|
    ensures var c := data[|t.prefix|]; var slot := Slot(t.kids.layout, c);
      Unsubscribe(t, data) ==
        if slot == None then Done(0, t) else Deeper(t, slot.value, c, data[|t.prefix| + 1..])
  {
    var rest := data[|t.prefix|..];
    assert rest[0] == data[|t.prefix|] && rest[1..] == data[|t.prefix| + 1..];
  }

  /** The string whose count is lost when data is unsubscribed from: that of a counted
      node whose dense array loses a whole child and becomes sparse (trie.c:609). */
  function Dropped(t: Tree, data: seq<byte>): Option<seq<byte>>
    requires TrieTree.Valid(t)
  {
    if t == Nil || !(t.prefix <= data) || |data| == |t.prefix| then None
    else
      var c := data[|t.prefix|];
      var rest := data[|t.prefix| + 1..];
      match Slot(t.kids.layout, c)
      case None => None
      case Some(i) =>
        var below := Unsubscribe(t.kids.slots[i], rest);
        if below.Fault? then None
        else if below.rc == 0 || below.tree != Nil then
          var v := Dropped(t.kids.slots[i], rest);
          if v == None then None else Some(t.prefix + [c] + v.value)
        else if Thins(t.kids) && t.refs > 0 then Some(t.prefix)
        else None
  }

  function CountAfter(t: Tree, data: seq<byte>, s: seq<byte>): int
    requires TrieTree.Valid(t) && Shaped(t)
  {
    if s == data then Count(t, s) - 1
    else if Dropped(t, data) == Some(s) then 0
    else Count(t, s)
  }

  /** Unsubscribing from a string that is subscribed to never faults, lowers its count
      by one, wipes out the count of the converted node if there is one, changes no
      other count, and answers 1 exactly when the count falls to zero. */
  lemma {:induction false} UnsubscribeCount(t: Tree, data: seq<byte>, s: seq<byte>)
    requires TrieTree.Valid(t) && Shaped(t) && Count(t, data) > 0
    ensures Unsubscribe(t, data).Done?
    ensures var Done(rc, u) := Unsubscribe(t, data);
      && TrieTree.Valid(u) && Shaped(u)
      && rc == (if Count(t, data) == 1 then 1 else 0)
      && (u == Nil ==> rc == 1)
      && Count(u, s) == CountAfter(t, data, s)
    decreases t
  {
    hide TrieTree.Valid, ChildTable.Valid, Shaped, Count, CountAfter, Unsubscribe, Child, Sized, Found;
    CountNil(data);
    CountHere(t, data);
    if |data| == |t.prefix| {
      assert data == t.prefix;
      UnsubscribeHere(t, s);
      FoundEffect(t, s);
    } else {
      var n := |t.prefix|;
      var c := data[n];
      var u := Child(t, c);
      var tail := if t.prefix <= s && |s| > n then s[n + 1..] else [];
      ChildOk(t, c);
      CountNil(data[n + 1..]);
      UnsubscribeCount(u, data[n + 1..], tail);
      UnsubscribeDeeper(t, data, s);
    }
  }

  // The node for the data.
  lemma UnsubscribeHere(t: Tree, s: seq<byte>)
    requires TrieTree.Valid(t) && t.Node? && Shaped(t)
    ensures Unsubscribe(t, t.prefix) == Found(t) && Count(t, t.prefix) == t.refs
    ensures CountAfter(t, t.prefix, s) == Count(t, s) - if s == t.prefix then 1 else 0
  {
  }

  // The slot of a child.
  lemma ChildSlot(t: Tree, c: byte)
    requires TrieTree.Valid(t) && t.Node? && Sized(t.kids) && Child(t, c) != Nil
    ensures Slot(t.kids.layout, c).Some?
    ensures var i := Slot(t.kids.layout, c).value; i < |t.kids.slots| && t.kids.slots[i] == Child(t, c)
  {
  }

  lemma UnsubscribeDeeper(t: Tree, data: seq<byte>, s: seq<byte>)
    requires TrieTree.Valid(t) && t.Node? && Shaped(t)
    requires t.prefix <= data && |data| > |t.prefix| && Count(t, data) > 0
    requires var n := |t.prefix|; var u := Child(t, data[n]); var r := Unsubscribe(u, data[n + 1..]);
      && u != Nil && r.Done? && TrieTree.Valid(r.tree) && Shaped(r.tree)
      && r.rc == (if Count(t, data) == 1 then 1 else 0)
      && (r.tree == Nil ==> r.rc == 1)
      && (t.prefix <= s && |s| > n ==> Count(r.tree, s[n + 1..]) == CountAfter(u, data[n + 1..], s[n + 1..]))
    ensures var r := Unsubscribe(t, data);
      && r.Done? && TrieTree.Valid(r.tree) && Shaped(r.tree)
      && r.rc == (if Count(t, data) == 1 then 1 else 0)
      && (r.tree == Nil ==> r.rc == 1)
      && Count(r.tree, s) == CountAfter(t, data, s)
  {
    hide TrieTree.Valid, ChildTable.Valid, Shaped, Count, CountAfter, Unsubscribe, Child, Sized, At, Prune, Thins;
    UnsubscribeStep(t, data);
    var n := |t.prefix|;
    var c := data[n];
    CountHere(t, s);
    ChildSlot(t, c);
    ChildOk(t, c);
    var i := Slot(t.kids.layout, c).value;
    var w := Unsubscribe(t.kids.slots[i], data[n + 1..]).tree;
    CountAfterDeeper(t, data, s);
    if w == Nil {
      var tail := if t.prefix <= s && |s| > n then s[n + 1..] else [];
      PruneEffect(t, i, c, s);
      CountNil(tail);
      NothingLeft(Child(t, c), data[n + 1..], tail);
    } else {
      DeeperValid(t, c, w);
      DeeperCount(t, c, w, s);
    }
  }

  // Where no node is left, no array was converted.
  lemma NothingLeft(t: Tree, data: seq<byte>, s: seq<byte>)
    requires TrieTree.Valid(t) && Shaped(t) && t.Node?
    requires Unsubscribe(t, data).Done? && Unsubscribe(t, data).tree == Nil
    ensures CountAfter(t, data, s) == if s == data then Count(t, s) - 1 else Count(t, s)
  {
    hide Count;
    if t.prefix <= data && |data| > |t.prefix| {
      var c := data[|t.prefix|];
      UnsubscribeStep(t, data);
      if Child(t, c) != Nil {
        ChildSlot(t, c);
        DroppedDeeper(t, data);
        PruneIs(t, Slot(t.kids.layout, c).value, c);
      }
    }
  }

  lemma CountAfterDeeper(t: Tree, data: seq<byte>, s: seq<byte>)
    requires TrieTree.Valid(t) && t.Node? && Shaped(t)
    requires t.prefix <= data && |data| > |t.prefix| && Child(t, data[|t.prefix|]) != Nil
    requires Unsubscribe(Child(t, data[|t.prefix|]), data[|t.prefix| + 1..]).Done?
    ensures var n := |t.prefix|; var c := data[n]; var u := Child(t, c);
      var Done(rc, w) := Unsubscribe(u, data[n + 1..]);
      && TrieTree.Valid(u) && Shaped(u)
      && (!(t.prefix <= s && |s| > n && s[n] == c) ==>
            CountAfter(t, data, s) ==
              if rc != 0 && w == Nil && Thins(t.kids) && s == t.prefix then 0 else Count(t, s))
      && (t.prefix <= s && |s| > n && s[n] == c ==>
            CountAfter(t, data, s) ==
              if rc != 0 && w == Nil && s != data then Count(u, s[n + 1..])
              else CountAfter(u, data[n + 1..], s[n + 1..]))
  {
    hide TrieTree.Valid, ChildTable.Valid, Shaped, Count, Dropped, Unsubscribe, Child, Sized, At, Thins;
    var n := |t.prefix|;
    var c := data[n];
    ChildOk(t, c);
    var u := Child(t, c);
    CountHere(t, s);
    DroppedDeeper(t, data);
    JoinedIs(t.prefix, c, data[n + 1..], s);
    JoinedIs(t.prefix, c, data[n + 1..], data);
    var v := Dropped(u, data[n + 1..]);
    if v.Some? { JoinedIs(t.prefix, c, v.value, s); }
  }

  lemma DroppedDeeper(t: Tree, data: seq<byte>)
    requires TrieTree.Valid(t) && t.Node?
    requires t.prefix <= data && |data| > |t.prefix| && Child(t, data[|t.prefix|]) != Nil
    requires Unsubscribe(Child(t, data[|t.prefix|]), data[|t.prefix| + 1..]).Done?
    ensures var c := data[|t.prefix|]; var rest := data[|t.prefix| + 1..]; var u := Child(t, c);
      var Done(rc, w) := Unsubscribe(u, rest);
      var v := Dropped(u, rest);
      Dropped(t, data) ==
        if rc == 0 || w != Nil then (if v == None then None else Some(t.prefix + [c] + v.value))
        else if Thins(t.kids) && t.refs > 0 then Some(t.prefix) else None
  {
  }

  // A dropped string was subscribed to, and is shorter than the data.
  lemma {:induction false} DroppedWasCounted(t: Tree, data: seq<byte>)
    requires TrieTree.Valid(t) && Dropped(t, data).Some?
    ensures Shaped(t)
    ensures var v := Dropped(t, data).value; v <= data && v != data && Count(t, v) > 0
    decreases t
  {
    hide TrieTree.Valid, ChildTable.Valid, Shaped, Count, Child, Sized, Unsubscribe, Thins, Dropped;
    ValidIsShaped(t);
    DroppedForm(t, data);
    var c := data[|t.prefix|];
    var rest := data[|t.prefix| + 1..];
    var v := Dropped(t, data).value;
    assert data == t.prefix + [c] + rest;
    CountHere(t, v);
    if v != t.prefix {
      var u := Child(t, c);
      DroppedWasCounted(u, rest);
      JoinedIs(t.prefix, c, Dropped(u, rest).value, v);
    }
  }

  // A dropped string is that of the node or comes from the child.
  lemma DroppedForm(t: Tree, data: seq<byte>)
    requires TrieTree.Valid(t) && Dropped(t, data).Some?
    ensures t.Node? && Sized(t.kids) && t.prefix <= data && |data| > |t.prefix|
    ensures var v := Dropped(t, data).value; var c := data[|t.prefix|]; var u := Child(t, c);
      || (v == t.prefix && t.refs > 0)
      || (TrieTree.Valid(u) && u < t && Dropped(u, data[|t.prefix| + 1..]).Some?
          && v == t.prefix + [c] + Dropped(u, data[|t.prefix| + 1..]).value)
  {
  }

  /** For a string that is subscribed to, unsubscribing lowers one count and keeps the
      others exactly when no counted node loses its dense array. */
  lemma UnsubscribeExact(t: Tree, data: seq<byte>)
    requires TrieTree.Valid(t) && Shaped(t) && Count(t, data) > 0
    ensures Unsubscribe(t, data).Done?
    ensures var u := Unsubscribe(t, data).tree;
      && TrieTree.Valid(u) && Shaped(u)
      && (Dropped(t, data) == None <==>
            forall s :: Count(u, s) == Count(t, s) - if s == data then 1 else 0)
  {
    UnsubscribeCount(t, data, data);
    var u := Unsubscribe(t, data).tree;
    forall s ensures Count(u, s) == CountAfter(t, data, s) {
      UnsubscribeCount(t, data, s);
    }
    if Dropped(t, data).Some? {
      DroppedWasCounted(t, data);
      assert Count(u, Dropped(t, data).value) != Count(t, Dropped(t, data).value);
    }
  }

  // ---------- Any string ----------

  /** The walk comes to a null pointer with data left, or to an empty slot of a dense array. */
  predicate MeetsNull(t: Tree, data: seq<byte>)
    requires TrieTree.Valid(t)
  {
    if data == [] then false
    else if t == Nil then true
    else if !(t.prefix <= data) || |data| == |t.prefix| then false
    else
      match Slot(t.kids.layout, data[|t.prefix|])
      case None => false
      case Some(i) => t.kids.slots[i] == Nil || MeetsNull(t.kids.slots[i], data[|t.prefix| + 1..])
  }

  /** The string that is unsubscribed from in fact.  Data that run out in front of a node are
      taken for the string that ends there, whatever the node's prefix is, since the test of
      `size` at trie.c:490 comes first. */
  function Target(t: Tree, data: seq<byte>): seq<byte>
    requires TrieTree.Valid(t)
  {
    if t == Nil then data
    else if data == [] then t.prefix
    else if !(t.prefix <= data) || |data| == |t.prefix| then data
    else
      var c := data[|t.prefix|];
      match Slot(t.kids.layout, c)
      case None => data
      case Some(i) => t.prefix + [c] + Target(t.kids.slots[i], data[|t.prefix| + 1..])
  }

  // The same, one level at a time.
  lemma WalkDeeper(t: Tree, data: seq<byte>)
    requires TrieTree.Valid(t) && t.Node? && t.prefix <= data && |data| > |t.prefix|
    ensures var n := |t.prefix|; var c := data[n]; var slot := Slot(t.kids.layout, c);
      && Sized(t.kids) && TrieTree.Valid(Child(t, c)) && (slot == None ==> Child(t, c) == Nil)
      && (slot.Some? ==> slot.value < |t.kids.slots| && t.kids.slots[slot.value] == Child(t, c))
      && (MeetsNull(t, data) <==>
            slot.Some? && (Child(t, c) == Nil || MeetsNull(Child(t, c), data[n + 1..])))
      && Target(t, data) ==
           if slot == None then data else t.prefix + [c] + Target(Child(t, c), data[n + 1..])
  {
  }

  // It goes on as the data do.
  lemma {:induction false} TargetExtends(t: Tree, data: seq<byte>)
    requires TrieTree.Valid(t)
    ensures data <= Target(t, data)
    decreases t
  {
    hide TrieTree.Valid, Child, Sized, MeetsNull;
    if t.Node? && t.prefix <= data && |data| > |t.prefix| {
      WalkDeeper(t, data);
      var n := |t.prefix|;
      var c := data[n];
      if Child(t, c) != Nil { TargetExtends(Child(t, c), data[n + 1..]); }
      assert data == t.prefix + [c] + data[n + 1..];
    }
  }

  // A string that is subscribed to is its own target.
  lemma {:induction false} CountedIsTarget(t: Tree, data: seq<byte>)
    requires TrieTree.Valid(t) && Shaped(t) && Count(t, data) > 0
    ensures !MeetsNull(t, data) && Target(t, data) == data
    decreases t
  {
    hide TrieTree.Valid, Child, Sized, Shaped, Count;
    CountNil(data);
    CountHere(t, data);
    if |data| > |t.prefix| {
      WalkDeeper(t, data);
      var n := |t.prefix|;
      CountNil(data[n + 1..]);
      CountedIsTarget(Child(t, data[n]), data[n + 1..]);
    }
  }

  // Where no null pointer is met, that string and the data are treated alike.
  lemma {:induction false} TargetAlike(t: Tree, data: seq<byte>)
    requires TrieTree.Valid(t) && !MeetsNull(t, data)
    ensures Unsubscribe(t, data) == Unsubscribe(t, Target(t, data))
    decreases t
  {
    hide TrieTree.Valid, Child, Sized, Found, Prune;
    if t.Node? && t.prefix <= data && |data| > |t.prefix| {
      WalkDeeper(t, data);
      UnsubscribeStep(t, data);
      var n := |t.prefix|;
      var c := data[n];
      if Slot(t.kids.layout, c).Some? {
        var below := Target(Child(t, c), data[n + 1..]);
        var whole := t.prefix + [c] + below;
        TargetAlike(Child(t, c), data[n + 1..]);
        assert whole[..n] == t.prefix && whole[n] == c && whole[n + 1..] == below;
        UnsubscribeStep(t, whole);
      }
    }
  }

  // What is answered when that string is not subscribed to.
  function AbsentAnswer(t: Tree, s: seq<byte>): int
    requires Shaped(t)
  {
    if t == Nil || s == t.prefix then -EINVAL else if EndsAt(t, s) then 1 else 0
  }

  // One level of an unsubscription that does nothing below.
  lemma AbsentDeeper(t: Tree, data: seq<byte>)
    requires TrieTree.Valid(t) && t.Node? && t.prefix <= data && |data| > |t.prefix|
    requires var u := Child(t, data[|t.prefix|]); var rest := data[|t.prefix| + 1..];
      u == Nil || (Unsubscribe(u, rest).Done? && Unsubscribe(u, rest).tree == u)
    requires !MeetsNull(t, data)
    ensures var u := Child(t, data[|t.prefix|]);
      Unsubscribe(t, data) ==
        Done(if u == Nil || Unsubscribe(u, data[|t.prefix| + 1..]).rc == 0 then 0 else 1, t)
  {
    hide TrieTree.Valid, Child, Sized, Prune, Unsubscribe;
    WalkDeeper(t, data);
    UnsubscribeStep(t, data);
    var slot := Slot(t.kids.layout, data[|t.prefix|]);
    if slot.Some? { assert t.kids.slots[slot.value := t.kids.slots[slot.value]] == t.kids.slots; }
  }

  // How the target lies below a node.
  lemma TargetBelow(t: Tree, data: seq<byte>)
    requires TrieTree.Valid(t) && t.Node? && Shaped(t) && t.prefix <= data && |data| > |t.prefix|
    ensures var n := |t.prefix|; var c := data[n]; var u := Child(t, c); var v := Target(t, data);
      && TrieTree.Valid(u) && Shaped(u) && t.prefix <= v && |v| > n && v[n] == c
      && (u != Nil ==> v[n + 1..] == Target(u, data[n + 1..]))
      && Count(t, v) == Count(u, v[n + 1..])
      && (EndsAt(t, v) <==> u != Nil && EndsAt(u, v[n + 1..]))
  {
    hide TrieTree.Valid, Child, Sized, Shaped, Count, Target, MeetsNull;
    var c := data[|t.prefix|];
    WalkDeeper(t, data);
    ChildOk(t, c);
    TargetExtends(t, data);
    CountHere(t, Target(t, data));
    if Slot(t.kids.layout, c).Some? {
      JoinedIs(t.prefix, c, Target(Child(t, c), data[|t.prefix| + 1..]), Target(t, data));
    }
  }

  /** If the string is not subscribed to, nothing is done.  The answer is -EINVAL at the root
      and 0 where the walk leaves the trie, but 1, as if the string had been removed, at an
      uncounted node below the root: there the caller prunes on any answer but 0. */
  lemma {:induction false} AbsentUnchanged(t: Tree, data: seq<byte>)
    requires TrieTree.Valid(t) && Shaped(t) && !MeetsNull(t, data) && Count(t, Target(t, data)) == 0
    ensures Unsubscribe(t, data) == Done(AbsentAnswer(t, Target(t, data)), t)
    decreases t
  {
    hide TrieTree.Valid, Child, Sized, Shaped, Count, Prune;
    if t.Node? && t.prefix <= data && |data| > |t.prefix| {
      hide Unsubscribe, Target, MeetsNull, EndsAt;
      TargetBelow(t, data);
      WalkDeeper(t, data);
      var u := Child(t, data[|t.prefix|]);
      if u != Nil { AbsentUnchanged(u, data[|t.prefix| + 1..]); }
      AbsentDeeper(t, data);
    } else if t.Node? {
      CountHere(t, Target(t, data));
    }
  }

  lemma SpoiledDeeper(t: Tree, i: nat, w: Tree)
    requires t.Node? && i < |t.kids.slots| && !TrieTree.Valid(w)
    ensures !TrieTree.Valid(t.(kids := t.kids.(slots := t.kids.slots[i := w])))
  {
    var v := t.(kids := t.kids.(slots := t.kids.slots[i := w]));
    assert v.kids.slots[i] == w;
    assert w in v.kids.slots;
  }

  // A null pointer does harm.
  lemma {:induction false} NullSpoils(t: Tree, data: seq<byte>)
    requires TrieTree.Valid(t) && MeetsNull(t, data)
    ensures Unsubscribe(t, data).Done? ==> !TrieTree.Valid(Unsubscribe(t, data).tree)
    decreases t
  {
    if t.Node? {
      UnsubscribeStep(t, data);
      var n := |t.prefix|;
      var c := data[n];
      var i := Slot(t.kids.layout, c).value;
      var u := t.kids.slots[i];
      var rest := data[n + 1..];
      if u == Nil {
        ShrinkHole(t.kids, Nil, i, c);
      } else {
        assert u in t.kids.slots;
        NullSpoils(u, rest);
        if Unsubscribe(u, rest).Done? { SpoiledDeeper(t, i, Unsubscribe(u, rest).tree); }
      }
    }
  }

  /** What any unsubscription does, of whatever string: it takes away one subscription to the
      target if there is one, and the count of the converted node; otherwise nothing. */
  lemma UnsubscribeAny(t: Tree, data: seq<byte>, s: seq<byte>)
    requires TrieTree.Valid(t) && Shaped(t) && !MeetsNull(t, data)
    ensures Unsubscribe(t, data).Done?
    ensures var Done(rc, u) := Unsubscribe(t, data); var v := Target(t, data);
      && TrieTree.Valid(u) && Shaped(u)
      && Count(u, s) == (if Count(t, v) > 0 then CountAfter(t, v, s) else Count(t, s))
      && rc == if Count(t, v) > 1 then 0 else if Count(t, v) == 1 then 1 else AbsentAnswer(t, v)
  {
    hide TrieTree.Valid, Shaped, Count, CountAfter, Unsubscribe, Target, MeetsNull, AbsentAnswer;
    var v := Target(t, data);
    if Count(t, v) > 0 {
      TargetAlike(t, data);
      UnsubscribeCount(t, v, s);
    } else {
      AbsentUnchanged(t, data);
    }
  }

  /** No fault and a well-formed trie afterwards, exactly when the walk meets no null pointer. */
  lemma SoundExact(t: Tree, data: seq<byte>)
    requires TrieTree.Valid(t)
    ensures (Unsubscribe(t, data).Done? && TrieTree.Valid(Unsubscribe(t, data).tree)) <==> !MeetsNull(t, data)
  {
    hide TrieTree.Valid, Shaped, Count, CountAfter, Unsubscribe, Target, MeetsNull, AbsentAnswer;
    ValidIsShaped(t);
    if MeetsNull(t, data) { NullSpoils(t, data); } else { UnsubscribeAny(t, data, data); }
  }

  // ---------- Strings nobody subscribed to ----------

  // All is as it was: no fault, a valid trie, the same counts.
  ghost predicate Untouched(t: Tree, r: Outcome)
    requires Shaped(t)
  {
    r.Done? && TrieTree.Valid(r.tree) && Shaped(r.tree) && forall s :: Count(r.tree, s) == Count(t, s)
  }

  /** Unsubscribing leaves the trie alone exactly when the walk meets no null pointer and the
      target is not subscribed to. */
  lemma AbsentExact(t: Tree, data: seq<byte>)
    requires TrieTree.Valid(t) && Shaped(t)
    ensures Untouched(t, Unsubscribe(t, data)) <==> !MeetsNull(t, data) && Count(t, Target(t, data)) == 0
  {
    hide TrieTree.Valid, Shaped, Count, Unsubscribe, Target, MeetsNull, AbsentAnswer;
    var v := Target(t, data);
    SoundExact(t, data);
    if !MeetsNull(t, data) {
      UnsubscribeAny(t, data, v);
      if Count(t, v) == 0 { AbsentUnchanged(t, data); }
    }
  }
}

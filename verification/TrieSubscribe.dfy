/** Subscribing: what grid_trie_subscribe does to the counts of all strings. */
module TrieSubscribe {
  import opened Bytes
  import opened ChildTable
  import opened TrieTree

  // A valid node but for the rule that a childless node is counted.
  ghost predicate Nodelike(t: Tree) {
    && t.Node?
    && |t.prefix| <= PREFIX_MAX
    && ChildTable.Valid(t.kids, Nil)
    && forall k :: k in t.kids.slots ==> TrieTree.Valid(k)
  }

  lemma NodelikeIsShaped(t: Tree)
    requires Nodelike(t)
    ensures Shaped(t)
  {
    forall k | k in t.kids.slots ensures Shaped(k) { ValidIsShaped(k); }
  }

  // A chain of a prefix, one character and a node counts what the node with the
  // joined prefix counts.
  lemma JoinCount(p: seq<byte>, c: byte, u: Tree, s: seq<byte>)
    requires u.Node? && Shaped(u)
    ensures Count(Node(0, p, Sole(c, u)), s) == Count(u.(prefix := p + [c] + u.prefix), s)
  {
    var t := Node(0, p, Sole(c, u));
    var q := p + [c] + u.prefix;
    var n := |p| + 1;
    if q <= s {
      assert s[..|p|] == q[..|p|] == p && s[|p|] == q[|p|] == c;
    }
    if p <= s && |s| > |p| && s[|p|] == c {
      assert s == p + [c] + s[n..];
      assert q <= s <==> u.prefix <= s[n..] by {
        if q <= s {
          assert q[n..] == u.prefix;
          assert s[..|q|][n..] == s[n..][..|u.prefix|];
        }
      }
      if u.prefix <= s[n..] && |s[n..]| > |u.prefix| {
        assert s[n..][|u.prefix|] == s[|q|];
        assert s[n..][|u.prefix| + 1..] == s[|q| + 1..];
      }
    }
  }

  // Merging a node with its only child changes no count.
  lemma CompactCount(t: Tree, s: seq<byte>)
    requires Nodelike(t)
    ensures Shaped(t) && Shaped(Compact(t))
    ensures Count(Compact(t), s) == Count(t, s)
  {
    NodelikeIsShaped(t);
    if Compact(t) != t {
      var ch := t.kids.slots[0];
      assert t.kids == Sole(t.kids.layout.chars[0], ch);
      assert ch in t.kids.slots;
      JoinCount(t.prefix, t.kids.layout.chars[0], ch, s);
    }
  }

  lemma CompactValid(t: Tree)
    requires Nodelike(t) && (t.refs > 0 || t.kids.slots != [])
    ensures TrieTree.Valid(Compact(t)) && Compact(t) != Nil
  {
    if Compact(t) != t {
      assert t.kids.slots[0] in t.kids.slots;
    }
  }

  lemma {:induction false} ChainCount(data: seq<byte>, s: seq<byte>)
    ensures Shaped(Chain(data)) && TrieTree.Valid(Chain(data)) && Chain(data) != Nil
    ensures Count(Chain(data), s) == if s == data then 1 else 0
  {
    if |data| > PREFIX_MAX {
      var c := data[PREFIX_MAX];
      var rest := data[PREFIX_MAX + 1..];
      ChainCount(rest, if |s| > PREFIX_MAX then s[PREFIX_MAX + 1..] else []);
      assert data == data[..PREFIX_MAX] + [c] + rest;
      if data[..PREFIX_MAX] <= s && |s| > PREFIX_MAX {
        assert s == data[..PREFIX_MAX] + [s[PREFIX_MAX]] + s[PREFIX_MAX + 1..];
      }
      assert Chain(rest) in Sole(c, Chain(rest)).slots;
    }
  }

  // Cutting the prefix behind a character.
  lemma CutNodelike(t: Tree, pos: nat)
    requires TrieTree.Valid(t) && t.Node? && pos < |t.prefix|
    ensures var cut := t.(prefix := t.prefix[pos + 1..]);
      && Nodelike(cut) && (cut.refs > 0 || cut.kids.slots != []) && Sized(cut.kids)
      && (cut.kids.layout.Sparse? ==> Nil !in cut.kids.slots)
      && Split(t, pos) == Node(0, t.prefix[..pos], Sole(t.prefix[pos], Compact(cut)))
      && t == cut.(prefix := t.prefix[..pos] + [t.prefix[pos]] + cut.prefix)
  {
    hide Compact;
    assert t.prefix == t.prefix[..pos] + [t.prefix[pos]] + t.prefix[pos + 1..];
  }

  lemma SoleNodelike(p: seq<byte>, c: byte, u: Tree)
    requires |p| <= PREFIX_MAX && TrieTree.Valid(u) && u != Nil
    ensures Nodelike(Node(0, p, Sole(c, u)))
  {
    hide TrieTree.Valid;
    assert forall k :: k in Sole(c, u).slots ==> k == u;
  }

  lemma SoleChild(p: seq<byte>, c: byte, u: Tree)
    requires Shaped(u)
    ensures var t := Node(0, p, Sole(c, u));
      && Shaped(t) && Sized(t.kids) && Shaped(Nil)
      && forall d: byte :: Child(t, d) == if d == c then u else Nil
  {
    assert forall k :: k in Sole(c, u).slots ==> k == u;
  }

  // Two subtrees that count the same below one character.
  lemma SoleCount(p: seq<byte>, c: byte, u: Tree, v: Tree, s: seq<byte>)
    requires Shaped(u) && Shaped(v)
    requires p <= s && |s| > |p| ==> Count(u, s[|p| + 1..]) == Count(v, s[|p| + 1..])
    ensures Shaped(Node(0, p, Sole(c, u))) && Shaped(Node(0, p, Sole(c, v)))
    ensures Count(Node(0, p, Sole(c, u)), s) == Count(Node(0, p, Sole(c, v)), s)
  {
    hide Count, Shaped, Child, Sole, Sized;
    SoleChild(p, c, u);
    SoleChild(p, c, v);
    CountHere(Node(0, p, Sole(c, u)), s);
    CountHere(Node(0, p, Sole(c, v)), s);
  }

  lemma SplitCount(t: Tree, pos: nat, s: seq<byte>)
    requires TrieTree.Valid(t) && t.Node? && pos < |t.prefix|
    ensures Nodelike(Split(t, pos)) && Shaped(Split(t, pos)) && Shaped(t)
    ensures Count(Split(t, pos), s) == Count(t, s)
  {
    hide TrieTree.Valid, ChildTable.Valid, Nodelike, Shaped, Count, Split, Compact, Sole;
    var p, c := t.prefix[..pos], t.prefix[pos];
    var cut := t.(prefix := t.prefix[pos + 1..]);
    var tail := if p <= s && |s| > pos then s[pos + 1..] else [];
    ValidIsShaped(t);
    PrefixFits(t);
    CutNodelike(t, pos);
    CompactValid(cut);
    CompactCount(cut, tail);
    SoleNodelike(p, c, Compact(cut));
    SoleCount(p, c, Compact(cut), cut, s);
    JoinCount(p, c, cut, s);
  }

  lemma PrefixFits(t: Tree)
    requires TrieTree.Valid(t) && t.Node?
    ensures |t.prefix| <= PREFIX_MAX
  {
  }

  // A new branch adds the strings of u below c, and takes away the node's own count
  // when the array is converted.
  lemma BranchCount(t: Tree, c: byte, u: Tree, s: seq<byte>)
    requires Nodelike(t) && TrieTree.Valid(u) && u != Nil && Child(t, c) == Nil
    ensures TrieTree.Valid(Branch(t, c, u)) && Shaped(Branch(t, c, u)) && Shaped(t) && Shaped(u)
    ensures Count(Branch(t, c, u), s) ==
      if t.prefix <= s && |s| > |t.prefix| && s[|t.prefix|] == c then Count(u, s[|t.prefix| + 1..])
      else if s == t.prefix && Converts(t.kids) then 0
      else Count(t, s)
  {
    GrowAt(t.kids, Nil, c, u);
    GrowSlots(t.kids, c, u);
    NodelikeIsShaped(t);
    ValidIsShaped(u);
    ValidIsShaped(Branch(t, c, u));
  }

  lemma GrowSlots(kids: Table<Tree>, c: byte, u: Tree)
    requires Sized(kids)
    ensures forall k :: k in Grow(kids, Nil, c, u).slots ==> k == u || k == Nil || k in kids.slots
    ensures Grow(kids, Nil, c, u).slots != []
  {
    var r := Grow(kids, Nil, c, u).slots;
    match kids.layout
    case Sparse(chars) =>
      RangeBounds(chars, c);
      if |chars| >= SPARSE_MAX {
        var min := Min(Lowest(chars, 255), c);
        var max := Max(Highest(chars, 0), c);
        var sp := Spread(chars, kids.slots, Nil, min, max);
        forall j | 0 <= j < |sp| ensures sp[j] == Nil || sp[j] in kids.slots {
          assert sp[j] == Nil || sp[j] == kids.slots[IndexOf(chars, j + min)];
        }
        assert r == sp[c - min := u];
      }
    case Dense(_, _, _) =>
  }

  /** The string whose count is lost when data is subscribed to: that of a counted
      node whose full sparse array has no room for the new branch. */
  function Lost(t: Tree, data: seq<byte>): Option<seq<byte>>
    requires TrieTree.Valid(t)
  {
    if t == Nil || !(t.prefix <= data) || |data| == |t.prefix| then None
    else
      var c := data[|t.prefix|];
      match Slot(t.kids.layout, c)
      case Some(i) =>
        if t.kids.slots[i] == Nil then None
        else
          var v := Lost(t.kids.slots[i], data[|t.prefix| + 1..]);
          if v == None then None else Some(t.prefix + [c] + v.value)
      case None => if Converts(t.kids) && t.refs > 0 then Some(t.prefix) else None
  }

  lemma CommonPrefix(p: seq<byte>, d: seq<byte>)
    ensures Common(p, d) == |p| <==> p <= d
  {
  }

  // What the count of s becomes.
  function CountAfter(t: Tree, data: seq<byte>, s: seq<byte>): nat
    requires TrieTree.Valid(t) && Shaped(t)
  {
    if s == data then Count(t, s) + 1
    else if Lost(t, data) == Some(s) then 0
    else Count(t, s)
  }

  /** Subscribing raises the count of data by one, wipes out the count of the
      converted node if there is one, and changes no other count. */
  lemma {:induction false} SubscribeCount(t: Tree, data: seq<byte>, s: seq<byte>)
    requires TrieTree.Valid(t)
    ensures TrieTree.Valid(Subscribe(t, data)) && Subscribe(t, data) != Nil
    ensures Shaped(t) && Shaped(Subscribe(t, data))
    ensures Count(Subscribe(t, data), s) == CountAfter(t, data, s)
    decreases t
  {
    hide Count, CountAfter, Shaped, Subscribe, Child, Split;
    ValidIsShaped(t);
    SubscribeEnds(t, data);
    if t == Nil {
      ChainCount(data, s);
    } else {
      var pos := Common(t.prefix, data);
      CommonPrefix(t.prefix, data);
      if pos < |t.prefix| {
        SubscribeSplit(t, data, s);
        SplitLost(t, data);
      } else if |data| == pos {
        SubscribeHere(t, s);
        assert data == t.prefix;
      } else if Child(t, data[pos]) == Nil {
        SubscribeBranch(t, data, s);
      } else {
        var tail := if t.prefix <= s && |s| > pos then s[pos + 1..] else [];
        SubscribeCount(Child(t, data[pos]), data[pos + 1..], tail);
        SubscribeDeeper(t, data, s);
      }
    }
  }

  lemma SubscribeEnds(t: Tree, data: seq<byte>)
    requires TrieTree.Valid(t)
    ensures t == Nil ==> Subscribe(t, data) == Chain(data) && Lost(t, data) == None
    ensures Subscribe(t, data) != Nil
    ensures t.Node? ==>
      && Sized(t.kids)
      && forall c: byte {:trigger Child(t, c)} ::
           TrieTree.Valid(Child(t, c)) && (Child(t, c) == Nil || Child(t, c) < t)
    ensures Shaped(t) && Lost(t, data) == None ==>
      forall s :: CountAfter(t, data, s) == Count(t, s) + if s == data then 1 else 0
    ensures Shaped(Nil) && forall s :: Count(Nil, s) == 0
  {
  }

  lemma SplitLost(t: Tree, data: seq<byte>)
    requires TrieTree.Valid(t) && t.Node? && Common(t.prefix, data) < |t.prefix|
    ensures Lost(t, data) == None
  {
    CommonPrefix(t.prefix, data);
  }

  lemma SubscribeHere(t: Tree, s: seq<byte>)
    requires TrieTree.Valid(t) && t.Node? && Shaped(t)
    ensures TrieTree.Valid(Subscribe(t, t.prefix)) && Shaped(Subscribe(t, t.prefix))
    ensures Count(Subscribe(t, t.prefix), s) == CountAfter(t, t.prefix, s)
  {
    CommonPrefix(t.prefix, t.prefix);
    var r := t.(refs := t.refs + 1);
    assert Subscribe(t, t.prefix) == r;
    ValidIsShaped(r);
  }

  lemma SubscribeSplit(t: Tree, data: seq<byte>, s: seq<byte>)
    requires TrieTree.Valid(t) && t.Node? && Shaped(t) && Common(t.prefix, data) < |t.prefix|
    ensures TrieTree.Valid(Subscribe(t, data)) && Shaped(Subscribe(t, data))
    ensures Count(Subscribe(t, data), s) == Count(t, s) + if s == data then 1 else 0
  {
    hide TrieTree.Valid, ChildTable.Valid, Nodelike, Shaped, Count, Split, Compact, Branch, Chain, Subscribe;
    var pos := Common(t.prefix, data);
    var rest := data[pos..];
    SplitOk(t);
    SplitCount(t, pos, s);
    SubscribeSplitIs(t, data);
    assert data == t.prefix[..pos] + rest;
    if rest == [] {
      SplitEnds(t, pos, s);
    } else {
      SplitBranch(t, pos, rest, s);
    }
  }

  lemma SubscribeSplitIs(t: Tree, data: seq<byte>)
    requires TrieTree.Valid(t) && t.Node? && Common(t.prefix, data) < |t.prefix|
    ensures var pos := Common(t.prefix, data); var rest := data[pos..]; var sp := Split(t, pos);
      && sp.Node? && Sized(sp.kids)
      && Subscribe(t, data) == if rest == [] then sp.(refs := 1) else Branch(sp, rest[0], Chain(rest[1..]))
  {
  }

  // The data end where the prefix is cut.
  lemma SplitEnds(t: Tree, pos: nat, s: seq<byte>)
    requires TrieTree.Valid(t) && t.Node? && pos < |t.prefix|
    requires Shaped(Split(t, pos)) && Nodelike(Split(t, pos))
    ensures var r := Split(t, pos).(refs := 1);
      && TrieTree.Valid(r) && Shaped(r)
      && Count(r, s) == Count(Split(t, pos), s) + if s == t.prefix[..pos] then 1 else 0
  {
    hide Compact;
    ValidIsShaped(Split(t, pos).(refs := 1));
  }

  lemma SplitOk(t: Tree)
    requires TrieTree.Valid(t) && t.Node?
    ensures Sized(t.kids) && (t.kids.layout.Sparse? ==> Nil !in t.kids.slots)
  {
  }

  lemma SplitShape(t: Tree, pos: nat, c: byte)
    requires TrieTree.Valid(t) && t.Node? && pos < |t.prefix| && t.prefix[pos] != c
    ensures var sp := Split(t, pos);
      && sp.Node? && sp.prefix == t.prefix[..pos]
      && Sized(sp.kids) && !Converts(sp.kids) && Child(sp, c) == Nil
  {
    assert IndexOf([t.prefix[pos]], c) == 1;
  }

  // What a node says about a string.
  lemma CountHere(t: Tree, s: seq<byte>)
    requires Shaped(t) && t.Node?
    ensures !(t.prefix <= s) ==> Count(t, s) == 0
    ensures s == t.prefix ==> Count(t, s) == t.refs
    ensures Sized(t.kids)
    ensures t.prefix <= s && |s| > |t.prefix| ==>
      var u := Child(t, s[|t.prefix|]);
      Shaped(u) && Count(t, s) == Count(u, s[|t.prefix| + 1..])
  {
  }

  lemma SplitBranch(t: Tree, pos: nat, rest: seq<byte>, s: seq<byte>)
    requires TrieTree.Valid(t) && t.Node? && Shaped(t) && pos < |t.prefix|
    requires rest != [] && rest[0] != t.prefix[pos]
    ensures Sized(Split(t, pos).kids)
    ensures var r := Branch(Split(t, pos), rest[0], Chain(rest[1..]));
      && TrieTree.Valid(r) && Shaped(r)
      && Count(r, s) == Count(t, s) + if s == t.prefix[..pos] + rest then 1 else 0
  {
    hide Split, Branch, Chain, Count, Nodelike, TrieTree.Valid, ChildTable.Valid, Child, Shaped, Converts, Sized;
    SplitOk(t);
    SplitCount(t, pos, s);
    SplitShape(t, pos, rest[0]);
    var sp := Split(t, pos);
    var tail := if sp.prefix <= s && |s| > pos then s[pos + 1..] else [];
    ChainCount(rest[1..], tail);
    BranchCount(sp, rest[0], Chain(rest[1..]), s);
    CountHere(t, s);
    if sp.prefix <= s && |s| > pos {
      assert s == sp.prefix + [s[pos]] + tail;
      assert s[pos] == rest[0] ==> !(t.prefix <= s);
    }
    assert sp.prefix + rest == sp.prefix + [rest[0]] + rest[1..];
  }

  // Where the walk ends with a whole prefix and more data.
  lemma SubscribeStep(t: Tree, data: seq<byte>)
    requires TrieTree.Valid(t) && t.Node? && t.prefix <= data && |data| > |t.prefix|
    ensures var c := data[|t.prefix|]; var rest := data[|t.prefix| + 1..]; var u := Child(t, c);
      Subscribe(t, data) ==
        if u == Nil then Branch(t, c, Chain(rest))
        else t.(kids := t.kids.(slots :=
               t.kids.slots[Slot(t.kids.layout, c).value := Subscribe(u, rest)]))
  {
    CommonPrefix(t.prefix, data);
    var n := |t.prefix|;
    assert data[n..][0] == data[n] && data[n..][1..] == data[n + 1..];
  }

  lemma SubscribeBranch(t: Tree, data: seq<byte>, s: seq<byte>)
    requires TrieTree.Valid(t) && t.Node? && Shaped(t)
    requires t.prefix <= data && |data| > |t.prefix| && Child(t, data[|t.prefix|]) == Nil
    ensures TrieTree.Valid(Subscribe(t, data)) && Shaped(Subscribe(t, data))
    ensures Count(Subscribe(t, data), s) == CountAfter(t, data, s)
  {
    hide Count, Shaped, Subscribe, Branch, Chain, TrieTree.Valid, ChildTable.Valid, Lost, At;
    var n := |t.prefix|;
    var c := data[n];
    NodeOk(t);
    SubscribeStep(t, data);
    var tail := if t.prefix <= s && |s| > n then s[n + 1..] else [];
    ChainCount(data[n + 1..], tail);
    BranchCount(t, c, Chain(data[n + 1..]), s);
    BranchLost(t, data);
    CountHere(t, s);
    assert Count(Nil, if t.prefix <= s && |s| > n then s[n + 1..] else []) == 0 by { NilCount(); }
    assert data == t.prefix + [c] + data[n + 1..];
    if t.prefix <= s && |s| > n {
      assert s == t.prefix + [s[n]] + tail;
    }
  }

  lemma NilCount()
    ensures Shaped(Nil) && forall s :: Count(Nil, s) == 0
  {
  }

  lemma NodeOk(t: Tree)
    requires TrieTree.Valid(t) && t.Node?
    ensures Nodelike(t) && Sized(t.kids)
  {
  }

  lemma BranchLost(t: Tree, data: seq<byte>)
    requires TrieTree.Valid(t) && t.Node?
    requires t.prefix <= data && |data| > |t.prefix| && Child(t, data[|t.prefix|]) == Nil
    ensures Lost(t, data) == if Converts(t.kids) && t.refs > 0 then Some(t.prefix) else None
  {
  }

  // The step for a node whose child takes the rest of the data.
  lemma DeeperValid(t: Tree, c: byte, w: Tree)
    requires TrieTree.Valid(t) && t.Node? && Child(t, c) != Nil && w != Nil && TrieTree.Valid(w)
    ensures var r := t.(kids := t.kids.(slots := t.kids.slots[Slot(t.kids.layout, c).value := w]));
      TrieTree.Valid(r) && Shaped(r)
  {
    var i := Slot(t.kids.layout, c).value;
    ReplaceAt(t.kids, i, c, w);
    var r := t.(kids := t.kids.(slots := t.kids.slots[i := w]));
    assert forall k :: k in r.kids.slots ==> k == w || k in t.kids.slots;
    ValidIsShaped(r);
  }

  lemma DeeperCount(t: Tree, c: byte, w: Tree, s: seq<byte>)
    requires TrieTree.Valid(t) && t.Node? && Child(t, c) != Nil && w != Nil && TrieTree.Valid(w)
    ensures var r := t.(kids := t.kids.(slots := t.kids.slots[Slot(t.kids.layout, c).value := w]));
      && Shaped(r) && Shaped(t) && Shaped(w)
      && Count(r, s) == if t.prefix <= s && |s| > |t.prefix| && s[|t.prefix|] == c
                        then Count(w, s[|t.prefix| + 1..]) else Count(t, s)
  {
    hide TrieTree.Valid, ChildTable.Valid, Shaped, Count, Child, Sized;
    SplitOk(t);
    DeeperValid(t, c, w);
    DeeperChild(t, c, w);
    ValidIsShaped(t);
    ValidIsShaped(w);
    CountHere(t, s);
    CountHere(t.(kids := t.kids.(slots := t.kids.slots[Slot(t.kids.layout, c).value := w])), s);
  }

  lemma DeeperChild(t: Tree, c: byte, w: Tree)
    requires TrieTree.Valid(t) && t.Node? && Sized(t.kids) && Child(t, c) != Nil && w != Nil
    ensures Slot(t.kids.layout, c).Some? && Slot(t.kids.layout, c).value < |t.kids.slots|
    ensures var r := t.(kids := t.kids.(slots := t.kids.slots[Slot(t.kids.layout, c).value := w]));
      && Sized(r.kids)
      && forall d: byte :: Child(r, d) == if d == c then w else Child(t, d)
  {
    hide TrieTree.Valid, ChildTable.Valid;
    ValidTable(t);
    ReplaceAt(t.kids, Slot(t.kids.layout, c).value, c, w);
  }

  lemma ValidTable(t: Tree)
    requires TrieTree.Valid(t) && t.Node?
    ensures ChildTable.Valid(t.kids, Nil)
  {
  }

  lemma DeeperLost(t: Tree, data: seq<byte>)
    requires TrieTree.Valid(t) && t.Node?
    requires t.prefix <= data && |data| > |t.prefix| && Child(t, data[|t.prefix|]) != Nil
    ensures var v := Lost(Child(t, data[|t.prefix|]), data[|t.prefix| + 1..]);
      Lost(t, data) == if v == None then None else Some(t.prefix + [data[|t.prefix|]] + v.value)
  {
  }

  lemma SubscribeDeeper(t: Tree, data: seq<byte>, s: seq<byte>)
    requires TrieTree.Valid(t) && t.Node? && Shaped(t)
    requires t.prefix <= data && |data| > |t.prefix|
    requires var u := Child(t, data[|t.prefix|]);
      var w := Subscribe(u, data[|t.prefix| + 1..]);
      && u != Nil && w != Nil && TrieTree.Valid(w) && Shaped(w)
      && (t.prefix <= s && |s| > |t.prefix| ==>
           Count(w, s[|t.prefix| + 1..]) == CountAfter(u, data[|t.prefix| + 1..], s[|t.prefix| + 1..]))
    ensures TrieTree.Valid(Subscribe(t, data)) && Shaped(Subscribe(t, data))
    ensures Count(Subscribe(t, data), s) == CountAfter(t, data, s)
  {
    hide TrieTree.Valid, ChildTable.Valid, Shaped, Count, CountAfter, Subscribe, Child, Sized, Branch, Chain;
    var n := |t.prefix|;
    var c := data[n];
    SplitOk(t);
    ChildOk(t, c);
    var w := Subscribe(Child(t, c), data[n + 1..]);
    SubscribeStep(t, data);
    DeeperValid(t, c, w);
    DeeperCount(t, c, w, s);
    CountAfterDeeper(t, data, s);
  }

  lemma CountAfterDeeper(t: Tree, data: seq<byte>, s: seq<byte>)
    requires TrieTree.Valid(t) && t.Node? && Shaped(t)
    requires t.prefix <= data && |data| > |t.prefix| && Child(t, data[|t.prefix|]) != Nil
    ensures var n := |t.prefix|; var c := data[n]; var u := Child(t, c);
      && TrieTree.Valid(u) && Shaped(u)
      && CountAfter(t, data, s) ==
           if t.prefix <= s && |s| > n && s[n] == c then CountAfter(u, data[n + 1..], s[n + 1..])
           else Count(t, s)
  {
    hide TrieTree.Valid, ChildTable.Valid, Shaped, Count, Lost, Child, Sized, At;
    var n := |t.prefix|;
    var c := data[n];
    ChildOk(t, c);
    CountHere(t, s);
    DeeperLost(t, data);
    JoinedIs(t.prefix, c, data[n + 1..], s);
    JoinedIs(t.prefix, c, data[n + 1..], data);
    var v := Lost(Child(t, c), data[n + 1..]);
    if v.Some? { JoinedIs(t.prefix, c, v.value, s); }
  }

  // A prefix, a character and a rest make up one string only.
  lemma JoinedIs(p: seq<byte>, c: byte, v: seq<byte>, s: seq<byte>)
    ensures p + [c] + v == s <==> p <= s && |s| > |p| && s[|p|] == c && s[|p| + 1..] == v
  {
    var j := p + [c] + v;
    assert j[..|p|] == p && j[|p|] == c && j[|p| + 1..] == v;
    if p <= s && |s| > |p| {
      assert s == p + [s[|p|]] + s[|p| + 1..];
    }
  }

  lemma ChildOk(t: Tree, c: byte)
    requires TrieTree.Valid(t) && t.Node?
    ensures Sized(t.kids) && TrieTree.Valid(Child(t, c)) && Shaped(Child(t, c))
  {
    ValidIsShaped(Child(t, c));
  }

  // Storing another subtree in an occupied slot.
  lemma ReplaceAt(kids: Table<Tree>, i: nat, c: byte, w: Tree)
    requires ChildTable.Valid(kids, Nil) && Slot(kids.layout, c) == Some(i)
    requires kids.slots[i] != Nil && w != Nil
    ensures var r := kids.(slots := kids.slots[i := w]);
      && ChildTable.Valid(r, Nil)
      && forall d: byte :: At(r, Nil, d) == if d == c then w else At(kids, Nil, d)
  {
    LiveUpdate(kids.slots, i, w, Nil);
    forall d: byte
      ensures At(kids.(slots := kids.slots[i := w]), Nil, d) == if d == c then w else At(kids, Nil, d)
    {
      assert kids.layout.Sparse? && Slot(kids.layout, d) == Some(i) ==> kids.layout.chars[i] == d;
    }
  }

  // A lost string was subscribed to, and is shorter than the data.
  lemma {:induction false} LostWasCounted(t: Tree, data: seq<byte>)
    requires TrieTree.Valid(t) && Lost(t, data).Some?
    ensures Shaped(t)
    ensures var v := Lost(t, data).value; v <= data && v != data && Count(t, v) > 0
    decreases t
  {
    ValidIsShaped(t);
    var c := data[|t.prefix|];
    var v := Lost(t, data).value;
    match Slot(t.kids.layout, c)
    case Some(i) =>
      var u := t.kids.slots[i];
      assert u in t.kids.slots;
      var rest := data[|t.prefix| + 1..];
      LostWasCounted(u, rest);
      assert data == t.prefix + [c] + rest;
      assert v[|t.prefix| + 1..] == Lost(u, rest).value;
    case None =>
  }

  /** Subscribing does what it is for, raise one count and keep the others, exactly
      when the walk does not end at a counted node with a full sparse array. */
  lemma SubscribeExact(t: Tree, data: seq<byte>)
    requires TrieTree.Valid(t)
    ensures TrieTree.Valid(Subscribe(t, data)) && Shaped(t) && Shaped(Subscribe(t, data))
    ensures Lost(t, data) == None <==>
      forall s :: Count(Subscribe(t, data), s) == Count(t, s) + if s == data then 1 else 0
  {
    SubscribeCount(t, data, data);
    forall s ensures Count(Subscribe(t, data), s) == CountAfter(t, data, s) {
      SubscribeCount(t, data, s);
    }
    if Lost(t, data).Some? {
      LostWasCounted(t, data);
      var v := Lost(t, data).value;
      assert Count(Subscribe(t, data), v) != Count(t, v);
    }
  }

  /** The returned value is 1 exactly for a string nobody subscribed to before. */
  lemma {:induction false} SubscribeFresh(t: Tree, data: seq<byte>)
    requires TrieTree.Valid(t)
    ensures Shaped(t)
    ensures SubscribeResult(t, data) == if Count(t, data) == 0 then 1 else 0
    decreases t
  {
    ValidIsShaped(t);
    if t.Node? {
      CommonPrefix(t.prefix, data);
      if t.prefix <= data && |data| > |t.prefix| {
        var rest := data[|t.prefix|..];
        var u := Child(t, rest[0]);
        if u != Nil {
          SubscribeFresh(u, rest[1..]);
          assert rest[1..] == data[|t.prefix| + 1..];
        }
      }
    }
  }
}

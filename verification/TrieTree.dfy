/** The subscription trie as a value: what each operation of
    src/protocols/pubsub/trie.c makes of the tree of nodes it is given. */
module TrieTree {
  import opened Bytes
  import opened ChildTable

  const PREFIX_MAX: nat := 10
  const EINVAL: int := 22

  // Nil is the NULL pointer.
  datatype Tree =
    | Nil
    | Node(refs: nat, prefix: seq<byte>, kids: Table<Tree>)

  ghost predicate Valid(t: Tree) {
    match t
    case Nil => true
    case Node(refs, prefix, kids) =>
      && |prefix| <= PREFIX_MAX
      && ChildTable.Valid(kids, Nil)
      && (kids.slots == [] ==> refs > 0)
      && forall k :: k in kids.slots ==> Valid(k)
  }

  predicate Shaped(t: Tree) {
    match t
    case Nil => true
    case Node(_, _, kids) => Sized(kids) && forall k | k in kids.slots :: Shaped(k)
  }

  lemma {:induction false} ValidIsShaped(t: Tree)
    requires Valid(t)
    ensures Shaped(t)
  {
    if t.Node? {
      forall k | k in t.kids.slots ensures Shaped(k) { ValidIsShaped(k); }
    }
  }

  // The child below a character.
  function Child(t: Tree, c: byte): (u: Tree)
    requires t.Node? && Sized(t.kids)
    ensures u == Nil || u < t
  {
    At(t.kids, Nil, c)
  }

  /** How many subscriptions to the string s the trie holds.  This is the meaning of
      a trie: a multiset of strings. */
  function Count(t: Tree, s: seq<byte>): nat
    requires Shaped(t)
    decreases t
  {
    match t
    case Nil => 0
    case Node(refs, prefix, kids) =>
      if !(prefix <= s) then 0
      else if |s| == |prefix| then refs
      else
        var u := Child(t, s[|prefix|]);
        if u == Nil then 0 else Count(u, s[|prefix| + 1..])
  }

  // A string that ends where a node does.
  predicate EndsAt(t: Tree, s: seq<byte>)
    requires Shaped(t)
    decreases t
  {
    && t.Node? && t.prefix <= s
    && (|s| == |t.prefix| ||
        var u := Child(t, s[|t.prefix|]); u != Nil && EndsAt(u, s[|t.prefix| + 1..]))
  }

  // ---------- grid_node_check_prefix, grid_node_compact ----------

  // How many characters of the data match the prefix.
  function Common(prefix: seq<byte>, data: seq<byte>): (n: nat)
    ensures n <= |prefix| && n <= |data|
    ensures prefix[..n] == data[..n]
    ensures n < |prefix| && n < |data| ==> prefix[n] != data[n]
  {
    if prefix == [] || data == [] || prefix[0] != data[0] then 0
    else 1 + Common(prefix[1..], data[1..])
  }

  function Compact(t: Tree): Tree
    requires t.Node? && Sized(t.kids) && (t.kids.layout.Sparse? ==> Nil !in t.kids.slots)
  {
    if t.refs > 0 || t.kids.layout.Dense? || |t.kids.slots| != 1 then t
    else
      var ch := t.kids.slots[0];
      if |t.prefix| + |ch.prefix| + 1 > PREFIX_MAX then t
      else ch.(prefix := t.prefix + [t.kids.layout.chars[0]] + ch.prefix)
  }

  // ---------- grid_trie_subscribe ----------

  function Sole(c: byte, t: Tree): Table<Tree> { Table(Sparse([c]), [t]) }

  // Step 4: a chain of nodes for what is left of the subscription, ending in a
  // node that counts one subscriber.
  function Chain(data: seq<byte>): Tree {
    if |data| > PREFIX_MAX then
      Node(0, data[..PREFIX_MAX], Sole(data[PREFIX_MAX], Chain(data[PREFIX_MAX + 1..])))
    else
      Node(1, data, Table(Sparse([]), []))
  }

  // Step 2: cut the prefix in two after pos characters.
  function Split(t: Tree, pos: nat): Tree
    requires t.Node? && pos < |t.prefix|
    requires Sized(t.kids) && (t.kids.layout.Sparse? ==> Nil !in t.kids.slots)
  {
    Node(0, t.prefix[..pos], Sole(t.prefix[pos], Compact(t.(prefix := t.prefix[pos + 1..]))))
  }

  // Step 3: a new branch for c.  A full sparse array becomes a dense one and the
  // count of the node is lost on the way (trie.c:384).
  function Branch(t: Tree, c: byte, u: Tree): Tree
    requires t.Node? && Sized(t.kids)
  {
    Node(if Converts(t.kids) then 0 else t.refs, t.prefix, Grow(t.kids, Nil, c, u))
  }

  predicate Converts(kids: Table<Tree>) {
    kids.layout.Sparse? && |kids.layout.chars| >= SPARSE_MAX
  }

  function Subscribe(t: Tree, data: seq<byte>): Tree
    requires Valid(t)
  {
    match t
    case Nil => Chain(data)
    case Node(refs, prefix, kids) =>
      var pos := Common(prefix, data);
      var rest := data[pos..];
      if pos < |prefix| then
        var s := Split(t, pos);
        if rest == [] then s.(refs := 1) else Branch(s, rest[0], Chain(rest[1..]))
      else if rest == [] then t.(refs := refs + 1)
      else
        match Slot(kids.layout, rest[0])
        case Some(i) =>
          if kids.slots[i] == Nil then Branch(t, rest[0], Chain(rest[1..]))
          else t.(kids := kids.(slots := kids.slots[i := Subscribe(kids.slots[i], rest[1..])]))
        case None => Branch(t, rest[0], Chain(rest[1..]))
  }

  // The value grid_trie_subscribe returns: 1 for a fresh subscription.
  function SubscribeResult(t: Tree, data: seq<byte>): int
    requires Valid(t)
  {
    match t
    case Nil => 1
    case Node(refs, prefix, kids) =>
      var pos := Common(prefix, data);
      var rest := data[pos..];
      if pos < |prefix| then 1
      else if rest == [] then (if refs + 1 == 1 then 1 else 0)
      else
        match Slot(kids.layout, rest[0])
        case Some(i) =>
          if kids.slots[i] == Nil then 1 else SubscribeResult(kids.slots[i], rest[1..])
        case None => 1
  }

  // ---------- grid_trie_unsubscribe ----------

  // Fault stands for reading through NULL and for the failed assertion at trie.c:623.
  datatype Outcome = Fault | Done(rc: int, tree: Tree)

  // The `found` label: drop one subscriber of this node.
  function Found(t: Tree): Outcome
    requires Valid(t)
  {
    if t == Nil || t.refs == 0 then Done(-EINVAL, t)
    else if t.refs > 1 then Done(0, t.(refs := t.refs - 1))
    else if t.kids.slots == [] then Done(1, Nil)
    else Done(1, Compact(t.(refs := 0)))
  }

  // The child at slot i, reached through c, is gone.
  function Prune(t: Tree, i: nat, c: byte): Outcome
    requires t.Node? && Valid(t) && Slot(t.kids.layout, c) == Some(i)
  {
    match Shrink(t.kids, Nil, i, c)
    case None => Fault
    case Some(kids) =>
      if t.kids.layout.Dense? then
        Done(1, Node(if kids.layout.Sparse? then 0 else t.refs, t.prefix, kids))
      else if kids.slots == [] && t.refs == 0 then Done(1, Nil)
      else Done(1, Compact(Node(t.refs, t.prefix, kids)))
  }

  function Unsubscribe(t: Tree, data: seq<byte>): Outcome
    requires Valid(t)
    decreases t
  {
    if data == [] then Found(t)
    else if t == Nil then Fault
    else if !(t.prefix <= data) then Done(0, t)
    else
      var rest := data[|t.prefix|..];
      if rest == [] then Found(t)
      else
        match Slot(t.kids.layout, rest[0])
        case None => Done(0, t)
        case Some(i) =>
          match Unsubscribe(t.kids.slots[i], rest[1..])
          case Fault => Fault
          case Done(rc, u) =>
            if rc == 0 || u != Nil then
              Done(if rc == 0 then 0 else 1, t.(kids := t.kids.(slots := t.kids.slots[i := u])))
            else Prune(t, i, rest[0])
  }

  // ---------- grid_trie_match ----------

  /** The cursor loop over the message in memory.  `mem` is the memory the message
      starts in and `size` what is left of it; the loop tests `size` only against
      zero, so once it has gone negative (a wrapped size_t) the data never end. */
  function MatchFrom(t: Tree, mem: nat -> byte, pos: nat, size: int): bool
    requires Shaped(t)
    decreases t
  {
    match t
    case Nil => false
    case Node(refs, prefix, kids) =>
      if !PrefixHere(prefix, mem, pos, size) then false
      else if refs > 0 then true
      else
        var u := Child(t, mem(pos + |prefix|));
        if u == Nil then false
        else MatchFrom(u, mem, pos + |prefix| + 1, size - |prefix| - 1)
  }

  // grid_node_check_prefix answers the whole prefix length.
  predicate PrefixHere(prefix: seq<byte>, mem: nat -> byte, pos: nat, size: int) {
    && (0 <= size ==> |prefix| <= size)
    && forall i :: 0 <= i < |prefix| ==> prefix[i] == mem(pos + i)
  }

  // The bytes of a message.
  function Message(mem: nat -> byte, pos: nat, size: nat): (s: seq<byte>)
    ensures |s| == size
  {
    seq(size, i requires 0 <= i < size => mem(pos + i))
  }
}

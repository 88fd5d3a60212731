/** Matching and whole runs: the trie as an index for one question, whether some
    subscribed string is a prefix of the message. */
module TrieMatch {
  import opened Bytes
  import opened ChildTable
  import opened TrieTree
  import opened TrieSubscribe
  import opened TrieUnsubscribe

  // ---------- grid_trie_match ----------

  /** The question a trie answers. */
  ghost predicate Wanted(t: Tree, msg: seq<byte>)
    requires Shaped(t)
  {
    exists k :: 0 <= k <= |msg| && Count(t, msg[..k]) > 0
  }

  // Some subscribed string of at least so many bytes lies in memory from pos on.
  ghost predicate Ahead(t: Tree, mem: nat -> byte, pos: nat, least: nat)
    requires Shaped(t)
  {
    exists k: nat :: k >= least && Count(t, Message(mem, pos, k)) > 0
  }

  /** The walk reads past the end of the message into a match (trie.c:467): the message ends
      at a node, nobody wants it, and some subscribed string extends it along the memory
      behind it. */
  ghost predicate RunsOff(t: Tree, mem: nat -> byte, pos: nat, size: nat)
    requires Shaped(t)
  {
    var msg := Message(mem, pos, size);
    EndsAt(t, msg) && !Wanted(t, msg) && Ahead(t, mem, pos, size + 1)
  }

  // What counts below a node, in terms of the message.
  lemma CountMessage(t: Tree, mem: nat -> byte, pos: nat, size: nat, k: nat)
    requires Shaped(t) && t.Node? && k <= size
    ensures var s := Message(mem, pos, size)[..k]; var n := |t.prefix|;
      Count(t, s) ==
        if !PrefixHere(t.prefix, mem, pos, k) then 0
        else if k == n then t.refs
        else
          var u := Child(t, mem(pos + n));
          if u == Nil then 0 else Count(u, Message(mem, pos + n + 1, size - n - 1)[..k - n - 1])
  {
    hide Shaped, Sized, Child, Count;
    var s := Message(mem, pos, size)[..k];
    var n := |t.prefix|;
    CountHere(t, s);
    PrefixMessage(t.prefix, mem, pos, size, k);
    if t.prefix <= s && k > n {
      assert s[n + 1..] == Message(mem, pos + n + 1, size - n - 1)[..k - n - 1];
      NilCount();
    }
  }

  lemma PrefixMessage(p: seq<byte>, mem: nat -> byte, pos: nat, size: nat, k: nat)
    requires k <= size
    ensures p <= Message(mem, pos, size)[..k] <==> PrefixHere(p, mem, pos, k)
  {
    var s := Message(mem, pos, size)[..k];
    if p <= s {
      forall i | 0 <= i < |p| ensures p[i] == mem(pos + i) { assert p[i] == s[i]; }
    }
    if PrefixHere(p, mem, pos, k) {
      assert p == s[..|p|];
    }
  }

  // The question, one node down.
  lemma WantedHere(t: Tree, mem: nat -> byte, pos: nat, size: nat)
    requires Shaped(t) && t.Node? && PrefixHere(t.prefix, mem, pos, size) && t.refs > 0
    ensures Wanted(t, Message(mem, pos, size))
  {
    var n := |t.prefix|;
    CountMessage(t, mem, pos, size, n);
    assert Count(t, Message(mem, pos, size)[..n]) > 0;
  }

  lemma WantedBelow(t: Tree, mem: nat -> byte, pos: nat, size: nat)
    requires Shaped(t) && t.Node? && PrefixHere(t.prefix, mem, pos, size) && size > |t.prefix|
    requires var u := Child(t, mem(pos + |t.prefix|));
      u != Nil && Shaped(u) && Wanted(u, Message(mem, pos + |t.prefix| + 1, size - |t.prefix| - 1))
    ensures Wanted(t, Message(mem, pos, size))
  {
    var n := |t.prefix|;
    var u := Child(t, mem(pos + n));
    var sub := Message(mem, pos + n + 1, size - n - 1);
    var j :| 0 <= j <= |sub| && Count(u, sub[..j]) > 0;
    CountMessage(t, mem, pos, size, n + 1 + j);
    assert Count(t, Message(mem, pos, size)[..n + 1 + j]) > 0;
  }

  lemma WantedSplit(t: Tree, mem: nat -> byte, pos: nat, size: nat)
    requires Shaped(t) && t.Node? && Wanted(t, Message(mem, pos, size))
    ensures var n := |t.prefix|;
      && PrefixHere(t.prefix, mem, pos, size)
      && (t.refs > 0 ||
           (size > n && var u := Child(t, mem(pos + n));
            u != Nil && Shaped(u) && Wanted(u, Message(mem, pos + n + 1, size - n - 1))))
  {
    hide Count, Shaped, Child;
    ShapedBelow(t);
    var n := |t.prefix|;
    var msg := Message(mem, pos, size);
    var k :| 0 <= k <= |msg| && Count(t, msg[..k]) > 0;
    CountMessage(t, mem, pos, size, k);
    if k > n {
      assert Count(Child(t, mem(pos + n)), Message(mem, pos + n + 1, size - n - 1)[..k - n - 1]) > 0;
    }
  }

  lemma WantedStep(t: Tree, mem: nat -> byte, pos: nat, size: nat)
    requires Shaped(t) && t.Node?
    ensures var n := |t.prefix|;
      Wanted(t, Message(mem, pos, size)) <==>
        && PrefixHere(t.prefix, mem, pos, size)
        && (t.refs > 0 ||
             (size > n && var u := Child(t, mem(pos + n));
              u != Nil && Shaped(u) && Wanted(u, Message(mem, pos + n + 1, size - n - 1))))
  {
    if Wanted(t, Message(mem, pos, size)) {
      WantedSplit(t, mem, pos, size);
    } else if PrefixHere(t.prefix, mem, pos, size) {
      if t.refs > 0 {
        WantedHere(t, mem, pos, size);
      } else if size > |t.prefix| {
        var u := Child(t, mem(pos + |t.prefix|));
        if u != Nil && Wanted(u, Message(mem, pos + |t.prefix| + 1, size - |t.prefix| - 1)) {
          WantedBelow(t, mem, pos, size);
        }
      }
    }
  }

  // The memory of a message as far as k, one node down.
  lemma CountWhole(t: Tree, mem: nat -> byte, pos: nat, k: nat)
    requires Shaped(t) && t.Node?
    ensures var n := |t.prefix|;
      Count(t, Message(mem, pos, k)) ==
        if !PrefixHere(t.prefix, mem, pos, k) then 0
        else if k == n then t.refs
        else
          var u := Child(t, mem(pos + n));
          if u == Nil then 0 else Count(u, Message(mem, pos + n + 1, k - n - 1))
  {
    hide Count, Shaped, Child;
    CountMessage(t, mem, pos, k, k);
    assert Message(mem, pos, k)[..k] == Message(mem, pos, k);
    if k > |t.prefix| {
      var sub := Message(mem, pos + |t.prefix| + 1, k - |t.prefix| - 1);
      assert sub[..k - |t.prefix| - 1] == sub;
    }
  }

  lemma AheadStep(t: Tree, mem: nat -> byte, pos: nat, least: nat)
    requires Shaped(t) && t.Node? && (t.refs == 0 || least > |t.prefix|)
    requires SubShaped(t)
    ensures var n := |t.prefix|; var u := Child(t, mem(pos + n));
      Ahead(t, mem, pos, least) <==>
        && PrefixHere(t.prefix, mem, pos, n) && u != Nil
        && Ahead(u, mem, pos + n + 1, if least > n then least - n - 1 else 0)
  {
    hide Count, Shaped, Child;
    var n := |t.prefix|;
    var u := Child(t, mem(pos + n));
    var less := if least > n then least - n - 1 else 0;
    if Ahead(t, mem, pos, least) {
      var k: nat :| k >= least && Count(t, Message(mem, pos, k)) > 0;
      CountWhole(t, mem, pos, k);
      assert Count(u, Message(mem, pos + n + 1, k - n - 1)) > 0;
    }
    if PrefixHere(t.prefix, mem, pos, n) && u != Nil && Ahead(u, mem, pos + n + 1, less) {
      var k: nat :| k >= less && Count(u, Message(mem, pos + n + 1, k)) > 0;
      CountWhole(t, mem, pos, k + n + 1);
      assert Count(t, Message(mem, pos, k + n + 1)) > 0;
    }
  }

  // The children can be counted in.
  ghost predicate SubShaped(t: Tree)
    requires t.Node?
  {
    Sized(t.kids) && forall c: byte {:trigger Child(t, c)} :: Shaped(Child(t, c))
  }

  lemma ShapedBelow(t: Tree)
    requires Shaped(t) && t.Node?
    ensures SubShaped(t)
  {
  }

  /** Once the size has gone below zero, the walk finds whatever subscribed string lies in
      memory. */
  lemma {:induction false} MatchUnbounded(t: Tree, mem: nat -> byte, pos: nat, size: int)
    requires Shaped(t) && size < 0
    ensures MatchFrom(t, mem, pos, size) <==> Ahead(t, mem, pos, 0)
    decreases t
  {
    hide Count, Shaped, Child;
    if t == Nil {
      NilCount();
    } else {
      var n := |t.prefix|;
      ShapedBelow(t);
      var u := Child(t, mem(pos + n));
      if t.refs > 0 {
        CountWhole(t, mem, pos, n);
        assert PrefixHere(t.prefix, mem, pos, n) ==> Count(t, Message(mem, pos, n)) > 0;
        if Ahead(t, mem, pos, 0) {
          var k: nat :| Count(t, Message(mem, pos, k)) > 0;
          CountWhole(t, mem, pos, k);
        }
      } else {
        AheadStep(t, mem, pos, 0);
        if u != Nil { MatchUnbounded(u, mem, pos + n + 1, size - n - 1); }
      }
    }
  }

  lemma EndsStep(t: Tree, mem: nat -> byte, pos: nat, size: nat)
    requires Shaped(t) && t.Node? && SubShaped(t)
    ensures var n := |t.prefix|;
      EndsAt(t, Message(mem, pos, size)) <==>
        && PrefixHere(t.prefix, mem, pos, size)
        && (size == n || (Child(t, mem(pos + n)) != Nil
              && EndsAt(Child(t, mem(pos + n)), Message(mem, pos + n + 1, size - n - 1))))
  {
    hide Shaped, Child;
    var n := |t.prefix|;
    var msg := Message(mem, pos, size);
    ShapedBelow(t);
    assert msg[..size] == msg;
    PrefixMessage(t.prefix, mem, pos, size, size);
    if size > n { assert msg[n + 1..] == Message(mem, pos + n + 1, size - n - 1); }
  }

  lemma RunsOffStep(t: Tree, mem: nat -> byte, pos: nat, size: nat)
    requires Shaped(t) && t.Node? && SubShaped(t)
    ensures var n := |t.prefix|; var u := Child(t, mem(pos + n));
      RunsOff(t, mem, pos, size) <==>
        && PrefixHere(t.prefix, mem, pos, size) && t.refs == 0 && u != Nil && Shaped(u)
        && if size == n then Ahead(u, mem, pos + n + 1, 0) else RunsOff(u, mem, pos + n + 1, size - n - 1)
  {
    hide Shaped, Child, Count, EndsAt, Wanted, Ahead;
    ShapedBelow(t);
    EndsStep(t, mem, pos, size);
    WantedStep(t, mem, pos, size);
    NilEnds();
    if PrefixHere(t.prefix, mem, pos, size) && t.refs == 0 {
      AheadStep(t, mem, pos, size + 1);
    }
  }

  lemma NilEnds()
    ensures Shaped(Nil) && forall s :: !EndsAt(Nil, s)
  {
  }

  /** grid_trie_match answers 1 exactly when some subscribed string is a prefix of the
      message or the walk runs off the end of the message into a match; the two never
      happen together.  Hence its answer is right exactly when the walk does not run
      off. */
  lemma {:induction false} MatchExact(t: Tree, mem: nat -> byte, pos: nat, size: nat)
    requires Shaped(t)
    ensures MatchFrom(t, mem, pos, size) <==>
      Wanted(t, Message(mem, pos, size)) || RunsOff(t, mem, pos, size)
    ensures !(Wanted(t, Message(mem, pos, size)) && RunsOff(t, mem, pos, size))
    decreases t
  {
    hide Shaped, Child, Count, Wanted, RunsOff, Ahead;
    if t.Node? {
      var n := |t.prefix|;
      ShapedBelow(t);
      WantedStep(t, mem, pos, size);
      RunsOffStep(t, mem, pos, size);
      NotBoth(t, mem, pos, size);
      var u := Child(t, mem(pos + n));
      if size > n && u != Nil {
        MatchExact(u, mem, pos + n + 1, size - n - 1);
      } else if size == n {
        MatchUnbounded(u, mem, pos + n + 1, -1);
      }
    } else {
      NilAnswers(mem, pos, size);
    }
  }

  lemma NotBoth(t: Tree, mem: nat -> byte, pos: nat, size: nat)
    requires Shaped(t)
    ensures !(Wanted(t, Message(mem, pos, size)) && RunsOff(t, mem, pos, size))
  {
  }

  lemma NilAnswers(mem: nat -> byte, pos: nat, size: nat)
    ensures Shaped(Nil) && !Wanted(Nil, Message(mem, pos, size)) && !RunsOff(Nil, mem, pos, size)
  {
  }

  /** The answer does not depend on the trie, only on the multiset it stands for: two
      tries with the same counts give the same answers on messages whose walk stays
      inside. */
  lemma MatchByCounts(t: Tree, t': Tree, mem: nat -> byte, size: nat)
    requires Shaped(t) && Shaped(t') && forall s :: Count(t, s) == Count(t', s)
    requires !RunsOff(t, mem, 0, size) && !RunsOff(t', mem, 0, size)
    ensures MatchFrom(t, mem, 0, size) == MatchFrom(t', mem, 0, size)
  {
    MatchExact(t, mem, 0, size);
    MatchExact(t', mem, 0, size);
  }

  // ---------- Emptiness ----------

  // Every node lies above some subscription.
  lemma {:induction false} SomeString(t: Tree) returns (s: seq<byte>)
    requires TrieTree.Valid(t) && t != Nil
    ensures Shaped(t) && Count(t, s) > 0
    decreases t
  {
    ValidIsShaped(t);
    if t.refs > 0 {
      s := t.prefix;
    } else {
      var c, i := LiveSlot(t.kids);
      var u := t.kids.slots[i];
      assert u in t.kids.slots;
      var below := SomeString(u);
      s := t.prefix + [c] + below;
      assert s[|t.prefix| + 1..] == below;
    }
  }

  lemma LiveSlot(kids: Table<Tree>) returns (c: byte, i: nat)
    requires ChildTable.Valid(kids, Nil) && kids.slots != []
    ensures i < |kids.slots| && kids.slots[i] != Nil && Slot(kids.layout, c) == Some(i)
  {
    i := 0;
    match kids.layout
    case Sparse(chars) =>
      c := chars[0];
      IndexOfUnique(chars, 0);
      assert kids.slots[0] in kids.slots;
    case Dense(min, _, _) =>
      c := min;
  }

  /** The root is NULL exactly when nothing is subscribed to. */
  lemma EmptyExact(t: Tree)
    requires TrieTree.Valid(t)
    ensures Shaped(t)
    ensures t == Nil <==> forall s :: Count(t, s) == 0
  {
    ValidIsShaped(t);
    if t != Nil {
      var s := SomeString(t);
      assert Count(t, s) > 0;
    }
  }

  // ---------- Runs ----------

  datatype Op = Sub(data: seq<byte>) | Unsub(data: seq<byte>)

  function Apply(t: Tree, op: Op): Outcome
    requires TrieTree.Valid(t)
  {
    match op
    case Sub(data) => Done(SubscribeResult(t, data), Subscribe(t, data))
    case Unsub(data) => Unsubscribe(t, data)
  }

  // The simple thing the trie is an index for.
  function ApplySimply(subs: multiset<seq<byte>>, op: Op): multiset<seq<byte>> {
    match op
    case Sub(data) => subs + multiset{data}
    case Unsub(data) => subs - multiset{data}
  }

  // Every unsubscription in the run is of a string subscribed to at that point.
  predicate Paired(subs: multiset<seq<byte>>, ops: seq<Op>)
    decreases |ops|
  {
    ops == [] ||
    (&& (ops[0].Unsub? ==> ops[0].data in subs)
     && Paired(ApplySimply(subs, ops[0]), ops[1..]))
  }

  // The operation does not convert the array of a counted node.
  predicate Keeps(t: Tree, op: Op)
    requires TrieTree.Valid(t)
  {
    match op
    case Sub(data) => Lost(t, data) == None
    case Unsub(data) => Dropped(t, data) == None
  }

  // No operation of the run converts the array of a counted node.
  ghost predicate Lossless(t: Tree, ops: seq<Op>)
    requires TrieTree.Valid(t)
    decreases |ops|
  {
    ops == [] ||
    (&& Keeps(t, ops[0])
     && Apply(t, ops[0]).Done?
     && TrieTree.Valid(Apply(t, ops[0]).tree)
     && Lossless(Apply(t, ops[0]).tree, ops[1..]))
  }

  ghost function Run(t: Tree, ops: seq<Op>): Tree
    requires TrieTree.Valid(t) && Lossless(t, ops)
    decreases |ops|
  {
    if ops == [] then t else Run(Apply(t, ops[0]).tree, ops[1..])
  }

  function RunSimply(subs: multiset<seq<byte>>, ops: seq<Op>): multiset<seq<byte>>
    decreases |ops|
  {
    if ops == [] then subs else RunSimply(ApplySimply(subs, ops[0]), ops[1..])
  }

  ghost predicate Represents(t: Tree, subs: multiset<seq<byte>>) {
    TrieTree.Valid(t) && Shaped(t) && forall s :: Count(t, s) == subs[s]
  }

  // One step keeps trie and multiset together, and its answer says whether the string
  // entered or left the multiset.
  lemma StepRefines(t: Tree, subs: multiset<seq<byte>>, op: Op)
    requires Represents(t, subs) && Keeps(t, op)
    requires op.Unsub? ==> op.data in subs
    ensures Apply(t, op).Done?
    ensures Represents(Apply(t, op).tree, ApplySimply(subs, op))
    ensures Apply(t, op).rc ==
      if op.data in subs <==> op.data in ApplySimply(subs, op) then 0 else 1
  {
    match op
    case Sub(data) =>
      SubscribeExact(t, data);
      SubscribeFresh(t, data);
    case Unsub(data) =>
      UnsubscribeExact(t, data);
      UnsubscribeCount(t, data, data);
  }

  /** The trie goes on standing for the multiset exactly when the step keeps every count. */
  lemma StepExact(t: Tree, subs: multiset<seq<byte>>, op: Op)
    requires Represents(t, subs)
    requires op.Unsub? ==> op.data in subs
    ensures Apply(t, op).Done?
    ensures Represents(Apply(t, op).tree, ApplySimply(subs, op)) <==> Keeps(t, op)
  {
    hide Lost, Dropped, Subscribe, Unsubscribe, SubscribeResult, Shaped;
    if Keeps(t, op) { StepRefines(t, subs, op); }
    match op
    case Sub(data) =>
      SubscribeExact(t, data);
      assert forall s :: ApplySimply(subs, op)[s] == Count(t, s) + if s == data then 1 else 0;
    case Unsub(data) =>
      UnsubscribeCount(t, data, data);
      UnsubscribeExact(t, data);
      assert forall s :: ApplySimply(subs, op)[s] == Count(t, s) - if s == data then 1 else 0;
  }

  // Every unsubscription of the run is of a string that has a count at that point.
  ghost predicate Counted(t: Tree, ops: seq<Op>)
    requires TrieTree.Valid(t)
    decreases |ops|
  {
    ops == [] ||
    (&& (ops[0].Unsub? ==> Shaped(t) && Count(t, ops[0].data) > 0)
     && (match Apply(t, ops[0])
         case Fault => true
         case Done(_, u) => TrieTree.Valid(u) ==> Counted(u, ops[1..])))
  }

  // What the run makes of the trie; None when it faults or the trie ceases to be valid.
  ghost function Outlives(t: Tree, ops: seq<Op>): Option<Tree>
    requires TrieTree.Valid(t)
    decreases |ops|
  {
    if ops == [] then Some(t)
    else match Apply(t, ops[0])
      case Fault => None
      case Done(_, u) => if TrieTree.Valid(u) then Outlives(u, ops[1..]) else None
  }

  // An unsubscription of the run meets a null pointer.
  ghost predicate RunMeetsNull(t: Tree, ops: seq<Op>)
    requires TrieTree.Valid(t)
    decreases |ops|
  {
    ops != [] &&
    (|| (ops[0].Unsub? && MeetsNull(t, ops[0].data))
     || (match Apply(t, ops[0])
         case Fault => false
         case Done(_, u) => TrieTree.Valid(u) && RunMeetsNull(u, ops[1..])))
  }

  lemma StepSound(t: Tree, op: Op)
    requires TrieTree.Valid(t)
    ensures (Apply(t, op).Done? && TrieTree.Valid(Apply(t, op).tree)) <==>
              !(op.Unsub? && MeetsNull(t, op.data))
  {
    hide TrieTree.Valid, Shaped, Count, Subscribe, Unsubscribe, MeetsNull;
    ValidIsShaped(t);
    match op
    case Sub(data) => SubscribeCount(t, data, data);
    case Unsub(data) => SoundExact(t, data);
  }

  /** A run of any subscriptions and unsubscriptions keeps the trie well formed all along, so
      that no assertion of the source fails and no null pointer is followed, exactly when none
      of its unsubscriptions meets one. */
  lemma {:induction false} RunSoundExact(t: Tree, ops: seq<Op>)
    requires TrieTree.Valid(t)
    ensures Outlives(t, ops).Some? <==> !RunMeetsNull(t, ops)
    decreases |ops|
  {
    hide TrieTree.Valid, Apply, MeetsNull;
    if ops != [] {
      StepSound(t, ops[0]);
      var r := Apply(t, ops[0]);
      if r.Done? && TrieTree.Valid(r.tree) { RunSoundExact(r.tree, ops[1..]); }
    }
  }

  // Strings with a count lead to no null pointer.
  lemma {:induction false} CountedMeetsNone(t: Tree, ops: seq<Op>)
    requires TrieTree.Valid(t) && Counted(t, ops)
    ensures !RunMeetsNull(t, ops)
    decreases |ops|
  {
    hide TrieTree.Valid, Shaped, Count, Apply, MeetsNull, Unsubscribe;
    if ops != [] {
      match ops[0] {
        case Sub(_) =>
        case Unsub(data) => CountedIsTarget(t, data);
      }
      StepSound(t, ops[0]);
      CountedMeetsNone(Apply(t, ops[0]).tree, ops[1..]);
    }
  }

  lemma {:induction false} OutlivesValid(t: Tree, ops: seq<Op>)
    requires TrieTree.Valid(t)
    ensures Outlives(t, ops).Some? ==> TrieTree.Valid(Outlives(t, ops).value)
    decreases |ops|
  {
    hide TrieTree.Valid, Apply;
    if ops != [] && Apply(t, ops[0]).Done? && TrieTree.Valid(Apply(t, ops[0]).tree) {
      OutlivesValid(Apply(t, ops[0]).tree, ops[1..]);
    }
  }

  /** So does every run in which unsubscriptions are of strings with a count, whether counts
      get lost on the way or not; and the root is NULL exactly when no string has a count. */
  lemma RunWellFormed(t: Tree, ops: seq<Op>)
    requires TrieTree.Valid(t) && Counted(t, ops)
    ensures match Outlives(t, ops)
      case None => false
      case Some(u) => TrieTree.Valid(u) && Shaped(u) && (u == Nil <==> forall s :: Count(u, s) == 0)
  {
    hide Count, Shaped, TrieTree.Valid, Outlives, RunMeetsNull, Counted;
    CountedMeetsNone(t, ops);
    RunSoundExact(t, ops);
    OutlivesValid(t, ops);
    var u := Outlives(t, ops).value;
    ValidIsShaped(u);
    EmptyExact(u);
  }

  /** Over every run of paired subscriptions and unsubscriptions that never converts the
      array of a counted node, the trie is an index of the multiset of subscriptions. */
  lemma {:induction false} RunRefines(t: Tree, subs: multiset<seq<byte>>, ops: seq<Op>)
    requires Represents(t, subs) && Paired(subs, ops) && Lossless(t, ops)
    ensures Represents(Run(t, ops), RunSimply(subs, ops))
    decreases |ops|
  {
    if ops != [] {
      StepRefines(t, subs, ops[0]);
      RunRefines(Apply(t, ops[0]).tree, ApplySimply(subs, ops[0]), ops[1..]);
    }
  }

  // Every state on the way stands for the multiset of that moment.
  ghost predicate Tracks(t: Tree, subs: multiset<seq<byte>>, ops: seq<Op>)
    decreases |ops|
  {
    && Represents(t, subs)
    && (ops == [] ||
        (&& Apply(t, ops[0]).Done?
         && Tracks(Apply(t, ops[0]).tree, ApplySimply(subs, ops[0]), ops[1..])))
  }

  /** A run keeps the trie an index of the multiset all along exactly when it never converts
      the array of a counted node. */
  lemma {:induction false} RunExact(t: Tree, subs: multiset<seq<byte>>, ops: seq<Op>)
    requires Represents(t, subs) && Paired(subs, ops)
    ensures Tracks(t, subs, ops) <==> Lossless(t, ops)
    decreases |ops|
  {
    hide Represents, Keeps, Apply;
    RepresentsIsValid(t, subs);
    if ops != [] {
      StepExact(t, subs, ops[0]);
      var u := Apply(t, ops[0]).tree;
      if Keeps(t, ops[0]) {
        RepresentsIsValid(u, ApplySimply(subs, ops[0]));
        RunExact(u, ApplySimply(subs, ops[0]), ops[1..]);
      }
    }
  }

  lemma RepresentsIsValid(t: Tree, subs: multiset<seq<byte>>)
    requires Represents(t, subs)
    ensures TrieTree.Valid(t) && Shaped(t)
  {
  }

  lemma NilRepresents()
    ensures Represents(Nil, multiset{})
  {
  }

  /** From the empty trie: what a message is answered after a run depends on the multiset
      alone, and the root is NULL exactly when the multiset is empty. */
  lemma RunAnswers(ops: seq<Op>, mem: nat -> byte, size: nat)
    requires Paired(multiset{}, ops) && Lossless(Nil, ops)
    ensures var t := Run(Nil, ops); var subs := RunSimply(multiset{}, ops);
      && Represents(t, subs)
      && (t == Nil <==> subs == multiset{})
      && (!RunsOff(t, mem, 0, size) ==>
            (MatchFrom(t, mem, 0, size) <==> exists s :: s in subs && s <= Message(mem, 0, size)))
  {
    hide Count, Shaped, RunsOff, Run, RunSimply, Lossless, Paired, TrieTree.Valid;
    NilRepresents();
    RunRefines(Nil, multiset{}, ops);
    var t := Run(Nil, ops);
    var subs := RunSimply(multiset{}, ops);
    EmptyExact(t);
    assert (forall s :: subs[s] == 0) <==> subs == multiset{};
    MatchExact(t, mem, 0, size);
    var msg := Message(mem, 0, size);
    if Wanted(t, msg) {
      var k :| 0 <= k <= |msg| && Count(t, msg[..k]) > 0;
      assert msg[..k] in subs && msg[..k] <= msg;
    }
    if exists s :: s in subs && s <= msg {
      var s :| s in subs && s <= msg;
      assert msg[..|s|] == s;
      assert Count(t, msg[..|s|]) > 0;
    }
  }
}

/** The raw SUB socket (src/protocols/pubsub/xsub.c): a trie of subscriptions in front of
    a queue of messages. */
module XSub {
  import opened Bytes
  import opened TrieTree
  import TrieMemory
  import TrieMatch
  import TrieSubscribe
  import Trie

  // A message body: where it starts in memory and how long it is.
  datatype Packet = Packet(mem: nat -> byte, size: nat)

  predicate Accepts(t: Tree, p: Packet)
    requires Shaped(t)
  {
    MatchFrom(t, p.mem, 0, p.size)
  }

  // The position of the first accepted message, or the length when there is none.
  function FirstAccepted(t: Tree, queue: seq<Packet>): (k: nat)
    requires Shaped(t)
    ensures k <= |queue|
  {
    if queue == [] || Accepts(t, queue[0]) then 0 else 1 + FirstAccepted(t, queue[1..])
  }

  /** What is accepted first is the first message that some subscription is a prefix of or
      whose walk runs off its end; everything in front of it is wanted by nobody.  When no
      walk runs off, it is the first one wanted. */
  lemma {:induction false} FirstAcceptedIs(t: Tree, queue: seq<Packet>)
    requires Shaped(t)
    ensures var k := FirstAccepted(t, queue);
      && (forall j :: 0 <= j < k ==> !Good(t, queue[j]) && !Bad(t, queue[j]))
      && (k < |queue| ==> Good(t, queue[k]) || Bad(t, queue[k]))
  {
    hide Good, Bad;
    if queue != [] {
      AcceptsIs(t, queue[0]);
      if !Accepts(t, queue[0]) {
        FirstAcceptedIs(t, queue[1..]);
      }
    }
  }

  // Some subscription is a prefix of the message.
  ghost predicate Good(t: Tree, p: Packet)
    requires Shaped(t)
  {
    TrieMatch.Wanted(t, Message(p.mem, 0, p.size))
  }

  // The walk runs off its end.
  ghost predicate Bad(t: Tree, p: Packet)
    requires Shaped(t)
  {
    TrieMatch.RunsOff(t, p.mem, 0, p.size)
  }

  lemma AcceptsIs(t: Tree, p: Packet)
    requires Shaped(t)
    ensures Accepts(t, p) <==> Good(t, p) || Bad(t, p)
  {
    TrieMatch.MatchExact(t, p.mem, 0, p.size);
  }

  class XSub {
    const trie: Trie.Trie
    // What grid_fq_recv is going to yield, in that order.
    var queue: seq<Packet>

    constructor ()
      ensures trie.Valid() && trie.Value() == Nil && queue == [] && fresh(trie) && fresh(trie.repr)
    {
      trie := new Trie.Trie();
      queue := [];
    }

    // GRID_SUB_SUBSCRIBE.
    method Subscribe(data: seq<byte>) returns (rc: int)
      requires trie.Valid()
      modifies trie, trie.repr
      ensures trie.Valid() && fresh(trie.repr - old(trie.repr)) && rc == 0
      ensures trie.Value() == TrieTree.Subscribe(old(trie.Value()), data)
    {
      hide TrieTree.Subscribe, SubscribeResult, TrieTree.Valid, TrieMemory.AsTree, TrieMemory.Nodes, Count;
      TrieSubscribe.SubscribeFresh(trie.Value(), data);
      rc := trie.Subscribe(data);
      rc := if rc >= 0 then 0 else rc;
    }

    // GRID_SUB_UNSUBSCRIBE, where the trie does not fault; the answer only says whether there
    // was an error.
    method Unsubscribe(data: seq<byte>) returns (rc: int)
      requires trie.Valid() && TrieTree.Unsubscribe(trie.Value(), data).Done?
      modifies trie, trie.repr
      ensures fresh(trie.repr - old(trie.repr))
      ensures TrieTree.Valid(trie.Value()) ==> trie.Valid()
      ensures var r := TrieTree.Unsubscribe(old(trie.Value()), data);
        trie.Value() == r.tree && rc == if r.rc >= 0 then 0 else r.rc
    {
      hide TrieTree.Unsubscribe, TrieTree.Valid, TrieMemory.AsTree, TrieMemory.Nodes, Count;
      rc := trie.Unsubscribe(data);
      rc := if rc >= 0 then 0 else rc;
    }

    /** grid_xsub_recv: take messages off the queue until one is accepted or none is
        left; None is -EAGAIN. */
    method Recv() returns (msg: Option<Packet>)
      requires trie.Valid()
      modifies `queue
      ensures trie.Valid() && Shaped(trie.Value())
      ensures var k := FirstAccepted(trie.Value(), old(queue));
        if k == |old(queue)| then msg == None && queue == []
        else msg == Some(old(queue)[k]) && queue == old(queue)[k + 1..]
    {
      ValidIsShaped(trie.Value());
      ghost var k := 0;
      ghost var all := queue;
      while true
        invariant trie.Valid() && Shaped(trie.Value()) && all == old(queue)
        invariant k <= |all| && queue == all[k..]
        invariant FirstAccepted(trie.Value(), all) == k + FirstAccepted(trie.Value(), all[k..])
        decreases |queue|
      {
        if queue == [] {
          return None;
        }
        var first := queue[0];
        queue := queue[1..];
        var found := trie.Match(first.mem, first.size);
        assert all[k..][1..] == all[k + 1..];
        if found {
          return Some(first);
        }
        k := k + 1;
      }
    }
  }
}

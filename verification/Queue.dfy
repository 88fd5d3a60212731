/** The intrusive queue (src/utils/queue.c) of tasks and events. */
module Queue {

  class Item {
    var next: Item?
    var inQueue: bool                          // next is not GRID_QUEUE_NOTINQUEUE

    // grid_queue_item_init.
    constructor ()
      ensures !inQueue
    {
      next, inQueue := null, false;
    }
  }

  class Queue {
    var head: Item?
    var tail: Item?
    ghost var items: seq<Item>

    ghost function At(i: int): Item?
      reads this
    {
      if 0 <= i < |items| then items[i] else null
    }

    ghost predicate Linked(i: int)
      requires 0 <= i < |items|
      reads this, items
    {
      items[i].inQueue && items[i].next == At(i + 1)
    }

    ghost predicate Valid()
      reads this, items
    {
      && (forall i, j :: 0 <= i < j < |items| ==> items[i] != items[j])
      && (forall i :: 0 <= i < |items| ==> Linked(i))
      && head == At(0) && tail == At(|items| - 1)
    }

    // grid_queue_init.
    constructor ()
      ensures Valid() && items == []
    {
      head, tail, items := null, null, [];
    }

    // grid_queue_push; the source asserts that the item is in no queue.
    method Push(item: Item)
      requires Valid() && !item.inQueue
      modifies this, item, items
      ensures Valid() && items == old(items) + [item]
    {
      forall i | 0 <= i < |items| ensures items[i] != item { assert Linked(i); }
      assert items != [] ==> Linked(|items| - 1);
      item.next, item.inQueue := null, true;
      if head == null { head := item; }
      if tail != null { tail.next := item; }
      tail := item;
      items := items + [item];
      forall i | 0 <= i < |items| ensures Linked(i) {
        assert i < |items| - 1 ==> old(Linked(i));
      }
    }

    // grid_queue_pop.
    method Pop() returns (result: Item?)
      requires Valid()
      modifies this, items
      ensures Valid()
      ensures old(items) == [] ==> result == null && items == []
      ensures old(items) != [] ==> result != null && old(items) == [result] + items && !result.inQueue
    {
      if head == null { return null; }
      assert Linked(0);
      result := head;
      head := result.next;
      if head == null { tail := null; }
      result.next, result.inQueue := null, false;
      items := items[1..];
      forall i | 0 <= i < |items| ensures Linked(i) { assert old(Linked(i + 1)); }
    }

    /** grid_queue_remove: the item is taken out from wherever it is and the order of the
        rest stays; an item that is not in this queue, even one that is in another, is left
        alone. */
    method Remove(item: Item) returns (ghost at: nat)
      requires Valid()
      modifies this, items
      ensures Valid()
      ensures item in old(items) ==>
        && at < |old(items)| && old(items)[at] == item && !item.inQueue
        && items == old(items)[..at] + old(items)[at + 1..]
      ensures item !in old(items) ==> items == old(items) && item.inQueue == old(item.inQueue)
    {
      at := 0;
      if !item.inQueue {
        forall i | 0 <= i < |items| ensures items[i] != item { assert Linked(i); }
        return;
      }
      var found, prev;
      found, prev, at := Search(item);
      if found {
        assert Linked(at);
        assert at > 0 ==> Linked(at - 1);
        if head == item { head := item.next; }
        if tail == item { tail := prev; }
        if prev != null { prev.next := item.next; }
        item.next, item.inQueue := null, false;
        items := items[..at] + items[at + 1..];
        forall i | 0 <= i < |items| ensures Linked(i) {
          if i < at { assert old(Linked(i)); } else { assert old(Linked(i + 1)); }
        }
      }
    }

    // The search of grid_queue_remove.
    method Search(item: Item) returns (found: bool, prev: Item?, ghost at: nat)
      requires Valid()
      ensures found <==> item in items
      ensures found ==> at < |items| && items[at] == item && prev == At(at - 1)
    {
      prev, at := null, 0;
      var it := head;
      while it != null
        invariant at <= |items| && it == At(at) && prev == At(at - 1)
        invariant item !in items[..at]
        decreases |items| - at
      {
        if it == item { return true, prev, at; }
        assert Linked(at);
        prev := it;
        it := it.next;
        at := at + 1;
      }
      assert items[..at] == items;
      return false, prev, at;
    }
  }
}

/** The intrusive doubly linked list (src/utils/list.c). */
module List {

  // An item; `value` stands for the struct that it is embedded in.
  class Item<T> {
    var prev: Item?<T>
    var next: Item?<T>
    var inList: bool                           // prev is not GRID_LIST_NOTINLIST
    var value: T

    // grid_list_item_init.
    constructor (v: T)
      ensures !inList && value == v
    {
      prev, next, inList, value := null, null, false, v;
    }
  }

  class List<T> {
    var first: Item?<T>
    var last: Item?<T>
    ghost var items: seq<Item<T>>

    ghost function At(i: int): Item?<T>
      reads this
    {
      if 0 <= i < |items| then items[i] else null
    }

    ghost predicate Valid()
      reads this, items
    {
      && Distinct(items)
      && (forall i :: 0 <= i < |items| ==> Linked(i))
      && first == At(0) && last == At(|items| - 1)
    }

    ghost predicate Linked(i: int)
      requires 0 <= i < |items|
      reads this, items
    {
      items[i].inList && items[i].prev == At(i - 1) && items[i].next == At(i + 1)
    }

    // grid_list_init.
    constructor ()
      ensures Valid() && items == []
    {
      first, last, items := null, null, [];
    }

    /** grid_list_insert: in front of `it`, which is the item at `at`, or behind the last
        when it is null. */
    method Insert(item: Item<T>, it: Item?<T>, ghost at: nat)
      requires Valid() && !item.inList && at <= |items| && it == At(at)
      modifies this, item, items
      ensures Valid() && items == old(items[..at]) + [item] + old(items[at..])
      ensures forall x :: x in items ==> x.value == old(x.value)
    {
      assert at < |items| ==> Linked(at);
      assert at > 0 ==> Linked(at - 1);
      ghost var was := items;
      forall i | 0 <= i < |items| ensures items[i] != item { assert Linked(i); }
      assert first == it ==> at == 0;
      item.prev := if it != null then it.prev else last;
      item.next := it;
      item.inList := true;
      if item.prev != null { item.prev.next := item; }
      if item.next != null { item.next.prev := item; }
      if first == null || first == it { first := item; }
      if it == null { last := item; }
      items := items[..at] + [item] + items[at..];
      Inserted(was, item, at);
      forall i | 0 <= i < |items| ensures Linked(i) {
        if i < at { assert old(Linked(i)); }
        if i > at { assert old(Linked(i - 1)); }
      }
      assert first == At(0) && last == At(|items| - 1);
    }

    // grid_list_erase.
    method Erase(item: Item<T>, ghost at: nat) returns (next: Item?<T>)
      requires Valid() && at < |items| && items[at] == item
      modifies this, items
      ensures Valid() && items == old(items[..at]) + old(items[at + 1..])
      ensures !item.inList && next == At(at)
      ensures forall x :: x in old(items) ==> x.value == old(x.value)
    {
      assert Linked(at);
      assert at > 0 ==> Linked(at - 1);
      assert at + 1 < |items| ==> Linked(at + 1);
      ghost var was := items;
      if item.prev != null { item.prev.next := item.next; } else { first := item.next; }
      if item.next != null { item.next.prev := item.prev; } else { last := item.prev; }
      next := item.next;
      item.prev, item.next, item.inList := null, null, false;
      items := items[..at] + items[at + 1..];
      forall i | 0 <= i < |items| ensures Linked(i) {
        if i < at { assert items[i] == was[i] && old(Linked(i)); }
        if i >= at { assert items[i] == was[i + 1] && old(Linked(i + 1)); }
        assert i + 1 < |items| ==> items[i + 1] == if i + 1 < at then was[i + 1] else was[i + 2];
        assert i > 0 ==> items[i - 1] == if i - 1 < at then was[i - 1] else was[i];
      }
    }
  }

  lemma Inserted<T>(was: seq<Item<T>>, item: Item<T>, at: nat)
    requires at <= |was| && item !in was && Distinct(was)
    ensures var now := was[..at] + [item] + was[at..];
      && Distinct(now)
      && (forall i :: 0 <= i < |now| ==> now[i] == if i < at then was[i] else if i == at then item else was[i - 1])
  {
  }

  ghost predicate Distinct<T>(s: seq<Item<T>>) {
    forall i, j :: 0 <= i < j < |s| ==> s[i] != s[j]
  }

  // The values of some items.
  ghost function Values<T>(items: seq<Item<T>>): (v: seq<T>)
    reads items
    ensures |v| == |items| && forall i :: 0 <= i < |v| ==> v[i] == items[i].value
  {
    if items == [] then [] else [items[0].value] + Values(items[1..])
  }
}

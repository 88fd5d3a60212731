/** The hash table (src/utils/hash.c): a finite map from keys to items, for any hash
    function.  A slot is the sequence of items that its list (see List) stands for. */
module Hash {
  import opened Wire

  const INITIAL_SLOTS: nat := 32
  const MAX_SLOTS: nat := 0x8000_0000

  class Item {
    var key: word

    // grid_hash_item_init.
    constructor () { key := 0xffff; }
  }

  // The slots are 32 times a power of two.
  predicate IsSize(n: nat): (r: bool)
    ensures r ==> n >= INITIAL_SLOTS
  {
    n == INITIAL_SLOTS || (n % 2 == 0 && n > INITIAL_SLOTS && IsSize(n / 2))
  }

  // A size below the largest can be doubled without overflow.
  lemma {:induction false} DoubleFits(n: nat, p: nat)
    requires IsSize(n) && IsSize(p) && n < p
    ensures 2 * n <= p
    decreases p
  {
    if n > INITIAL_SLOTS { DoubleFits(n / 2, p / 2); }
  }

  lemma MaxIsSize()
    ensures IsSize(MAX_SLOTS)
  {
    assert IsSize(0x40) && IsSize(0x80) && IsSize(0x100) && IsSize(0x200);
    assert IsSize(0x400) && IsSize(0x800) && IsSize(0x1000) && IsSize(0x2000);
    assert IsSize(0x4000) && IsSize(0x8000) && IsSize(0x1_0000) && IsSize(0x2_0000);
    assert IsSize(0x4_0000) && IsSize(0x8_0000) && IsSize(0x10_0000) && IsSize(0x20_0000);
    assert IsSize(0x40_0000) && IsSize(0x80_0000) && IsSize(0x100_0000) && IsSize(0x200_0000);
    assert IsSize(0x400_0000) && IsSize(0x800_0000) && IsSize(0x1000_0000) && IsSize(0x2000_0000);
    assert IsSize(0x4000_0000);
  }

  // The slots hold exactly the items of the map, each once and in the slot of its key.
  ghost predicate Agree(hash: word -> nat, c: map<word, Item>, s: seq<seq<Item>>)
    reads c.Values
  {
    && |s| > 0
    && (forall k :: k in c ==> c[k].key == k && c[k] in s[hash(k) % |s|])
    && (forall i :: 0 <= i < |s| ==> SlotAgrees(hash, c, |s|, i, s[i]))
  }

  ghost predicate SlotAgrees(hash: word -> nat, c: map<word, Item>, n: nat, i: nat, l: seq<Item>)
    requires n > 0
    reads c.Values
  {
    Distinct(l) && forall x :: x in l ==> Known(hash, c, n, i, x)
  }

  // An item that may be in slot i of n.
  ghost predicate Known(hash: word -> nat, c: map<word, Item>, n: nat, i: nat, x: Item)
    requires n > 0
    reads c.Values
  {
    x in c.Values && x.key in c && c[x.key] == x && hash(x.key) % n == i
  }

  ghost predicate Distinct(l: seq<Item>) {
    forall j, k :: 0 <= j < k < |l| ==> l[j] != l[k]
  }

  lemma AddKnown(hash: word -> nat, c: map<word, Item>, x: Item, n: nat, i: nat, y: Item)
    requires n > 0 && x.key !in c && Known(hash, c, n, i, y)
    ensures Known(hash, c[x.key := x], n, i, y)
  {
    assert c[x.key := x][y.key] == y;
  }

  lemma AddDistinct(l: seq<Item>, x: Item)
    requires Distinct(l) && x !in l
    ensures Distinct(l + [x])
  {
  }

  lemma AddToSlot(hash: word -> nat, c: map<word, Item>, x: Item, n: nat, i: nat, l: seq<Item>)
    requires n > 0 && x.key !in c && SlotAgrees(hash, c, n, i, l)
    ensures SlotAgrees(hash, c[x.key := x], n, i, l)
    ensures hash(x.key) % n == i ==> SlotAgrees(hash, c[x.key := x], n, i, l + [x])
  {
    forall y | y in l ensures Known(hash, c[x.key := x], n, i, y) && y != x {
      AddKnown(hash, c, x, n, i, y);
    }
    assert c[x.key := x][x.key] == x;
    AddDistinct(l, x);
  }

  lemma AddAgrees(hash: word -> nat, c: map<word, Item>, s: seq<seq<Item>>, x: Item)
    requires Agree(hash, c, s) && x.key !in c
    ensures var h := hash(x.key) % |s|; Agree(hash, c[x.key := x], s[h := s[h] + [x]])
    ensures |c[x.key := x]| == |c| + 1
  {
    hide SlotAgrees;
    var h := hash(x.key) % |s|;
    var d := c[x.key := x];
    var t := s[h := s[h] + [x]];
    assert d.Keys == c.Keys + {x.key};
    assert t[h][|s[h]|] == x;
    forall i | 0 <= i < |t| ensures SlotAgrees(hash, d, |t|, i, t[i]) {
      AddToSlot(hash, c, x, |s|, i, s[i]);
    }
  }

  function Without(l: seq<Item>, at: nat): seq<Item>
    requires at < |l|
  {
    l[..at] + l[at + 1..]
  }

  lemma WithoutFirst(l: seq<Item>)
    requires l != []
    ensures Without(l, 0) == l[1..]
  {
  }

  lemma WithoutHolds(l: seq<Item>, at: nat)
    requires Distinct(l) && at < |l|
    ensures Distinct(Without(l, at))
    ensures forall y :: y in Without(l, at) <==> y in l && y != l[at]
  {
    var rest := Without(l, at);
    forall y | y in l && y != l[at] ensures y in rest {
      var j :| 0 <= j < |l| && l[j] == y;
      assert rest[if j < at then j else j - 1] == y;
    }
  }

  lemma RemoveElsewhere(hash: word -> nat, c: map<word, Item>, n: nat, i: nat, l: seq<Item>, x: Item)
    requires n > 0 && SlotAgrees(hash, c, n, i, l) && x !in l && x.key in c && c[x.key] == x
    ensures SlotAgrees(hash, c - {x.key}, n, i, l)
  {
    var d := c - {x.key};
    forall y | y in l ensures Known(hash, d, n, i, y) { assert d[y.key] == y; }
  }

  lemma RemoveFromSlot(hash: word -> nat, c: map<word, Item>, n: nat, i: nat, l: seq<Item>, at: nat)
    requires n > 0 && SlotAgrees(hash, c, n, i, l) && at < |l|
    ensures Known(hash, c, n, i, l[at])
    ensures SlotAgrees(hash, c - {l[at].key}, n, i, Without(l, at))
    ensures forall y :: y in l && y != l[at] ==> y in Without(l, at)
  {
    WithoutHolds(l, at);
    assert l[at] in l;
    assert SlotAgrees(hash, c, n, i, Without(l, at));
    RemoveElsewhere(hash, c, n, i, Without(l, at), l[at]);
  }

  lemma RemoveAgrees(hash: word -> nat, c: map<word, Item>, s: seq<seq<Item>>, h: nat, at: nat)
    requires Agree(hash, c, s) && h < |s| && at < |s[h]|
    ensures var x := s[h][at];
      && Known(hash, c, |s|, h, x)
      && Agree(hash, c - {x.key}, s[h := Without(s[h], at)])
      && |c - {x.key}| == |c| - 1
  {
    hide SlotAgrees, Without;
    var x := s[h][at];
    RemoveFromSlot(hash, c, |s|, h, s[h], at);
    var d := c - {x.key};
    var t := s[h := Without(s[h], at)];
    assert d.Keys == c.Keys - {x.key};
    forall i | 0 <= i < |t| ensures SlotAgrees(hash, d, |t|, i, t[i]) {
      if i != h {
        NotElsewhere(hash, c, |s|, i, s[i], x);
        RemoveElsewhere(hash, c, |s|, i, s[i], x);
      }
    }
    forall l | l in d ensures d[l].key == l && d[l] in t[hash(l) % |t|] {
      assert c[l] in s[hash(l) % |s|] && c[l] != x;
    }
  }

  lemma NotElsewhere(hash: word -> nat, c: map<word, Item>, n: nat, i: nat, l: seq<Item>, x: Item)
    requires n > 0 && SlotAgrees(hash, c, n, i, l) && x.key in c && hash(x.key) % n != i
    ensures x !in l
  {
  }

  lemma EmptyAgrees(hash: word -> nat, s: seq<seq<Item>>)
    requires s != [] && forall i :: 0 <= i < |s| ==> s[i] == []
    ensures Agree(hash, map[], s)
  {
  }

  // Empty slots hold nothing.
  lemma NothingLeft(hash: word -> nat, c: map<word, Item>, s: seq<seq<Item>>)
    requires Agree(hash, c, s) && forall i :: 0 <= i < |s| ==> s[i] == []
    ensures c == map[]
  {
    hide Agree;
    forall k ensures k !in c {
      if k in c { SlotOf(hash, c, s, k); }
    }
  }

  lemma SlotOf(hash: word -> nat, c: map<word, Item>, s: seq<seq<Item>>, k: word)
    requires Agree(hash, c, s) && k in c
    ensures s != [] && c[k].key == k && c[k] in s[hash(k) % |s|] && s[hash(k) % |s|] != []
  {
  }

  lemma ItemOf(hash: word -> nat, c: map<word, Item>, s: seq<seq<Item>>, i: nat, x: Item)
    requires Agree(hash, c, s) && i < |s| && x in s[i]
    ensures x.key in c && c[x.key] == x && x in c.Values
  {
  }

  class HashTable {
    const hash: word -> nat
    var items: nat
    var slots: array<seq<Item>>
    ghost var contents: map<word, Item>        // what the table stands for

    ghost predicate Valid()
      reads this, slots, contents.Values
    {
      && IsSize(slots.Length) && slots.Length <= MAX_SLOTS
      && items == |contents|
      && (slots.Length < MAX_SLOTS ==> 2 * items <= slots.Length)
      && Agree(hash, contents, slots[..])
    }

    // grid_hash_init.
    constructor (hash: word -> nat)
      ensures Valid() && contents == map[] && fresh(slots) && this.hash == hash
    {
      this.hash := hash;
      items := 0;
      contents := map[];
      slots := new seq<Item>[INITIAL_SLOTS](_ => []);
      new;
      MaxIsSize();
    }

    /** grid_hash_get. */
    method Get(key: word) returns (found: Item?)
      requires Valid()
      ensures found == if key in contents then contents[key] else null
    {
      var slot := slots[hash(key) % slots.Length];
      for i := 0 to |slot|
        invariant forall j :: 0 <= j < i ==> slot[j].key != key
      {
        assert slot[i] in slots[..][hash(key) % slots.Length];
        if slot[i].key == key { return slot[i]; }
      }
      return null;
    }

    /** grid_hash_insert: the assertion against a duplicate holds exactly because the key is
        not in the table; afterwards the table maps the key to the item and is otherwise as
        it was, however the slots were laid out anew. */
    method Insert(key: word, item: Item)
      requires Valid() && key !in contents && item !in contents.Values
      modifies this, slots, item
      ensures Valid() && contents == old(contents)[key := item]
      ensures slots == old(slots) || fresh(slots)
    {
      hide Agree, IsSize;
      var i := hash(key) % slots.Length;
      var slot := slots[i];
      CheckAbsent(key, slot, i, contents, slots[..]);
      SetKey(item, key, contents, slots[..]);
      AddAgrees(hash, contents, slots[..], item);
      slots[i] := slot + [item];
      contents := contents[key := item];
      items := items + 1;
      if items * 2 > slots.Length && slots.Length < MAX_SLOTS {
        MaxIsSize();
        DoubleFits(slots.Length, MAX_SLOTS);
        Rehash();
      }
    }

    // The assertion of grid_hash_insert against a duplicate.
    method CheckAbsent(key: word, slot: seq<Item>, ghost i: nat, ghost c: map<word, Item>, ghost s: seq<seq<Item>>)
      requires Agree(hash, c, s) && key !in c && i < |s| && s[i] == slot
    {
      hide Agree;
      for j := 0 to |slot| {
        ItemOf(hash, c, s, i, slot[j]);
        assert slot[j].key != key;
      }
    }

    method SetKey(item: Item, key: word, ghost c: map<word, Item>, ghost s: seq<seq<Item>>)
      requires Agree(hash, c, s) && item !in c.Values
      modifies item
      ensures Agree(hash, c, s) && item.key == key
    {
      hide Agree;
      item.key := key;
    }

    // grid_hash_erase.
    method Erase(item: Item)
      requires Valid() && item in contents.Values
      modifies this, slots
      ensures Valid() && contents == old(contents) - {item.key}
      ensures slots == old(slots)
    {
      hide Agree, IsSize, Without;
      var i := hash(item.key) % slots.Length;
      var slot := slots[i];
      ghost var k :| k in contents && contents[k] == item;
      SlotOf(hash, contents, slots[..], k);
      var j := IndexOf(slot, item);
      RemoveAgrees(hash, contents, slots[..], i, j);
      slots[i] := Without(slot, j);
      contents := contents - {item.key};
      items := items - 1;
    }

    method IndexOf(slot: seq<Item>, item: Item) returns (j: nat)
      requires item in slot
      ensures j < |slot| && slot[j] == item
    {
      j := 0;
      while slot[j] != item
        invariant j < |slot| && item in slot[j..]
        decreases |slot| - j
      {
        j := j + 1;
      }
    }

    // grid_hash_rehash.
    method Rehash()
      requires IsSize(slots.Length) && 2 * slots.Length <= MAX_SLOTS
      requires Agree(hash, contents, slots[..])
      modifies this`slots, slots
      ensures fresh(slots) && slots.Length == 2 * old(slots.Length) && IsSize(slots.Length)
      ensures Agree(hash, contents, slots[..])
    {
      hide Agree, Known, Distinct;
      var oldarray := slots;
      var newarray := new seq<Item>[2 * oldarray.Length](_ => []);
      ghost var left, moved := contents, map[];
      EmptyAgrees(hash, newarray[..]);
      for i := 0 to oldarray.Length
        modifies oldarray, newarray
        invariant Agree(hash, left, oldarray[..]) && Agree(hash, moved, newarray[..])
        invariant Shared(contents, left, moved)
        invariant forall j :: 0 <= j < i ==> oldarray[j] == []
      {
        left, moved := MoveSlot(oldarray, newarray, i, left, moved, contents);
      }
      NothingLeft(hash, left, oldarray[..]);
      assert moved == contents;
      slots := newarray;
    }

    // One slot's part of the move.
    method MoveSlot(oldarray: array<seq<Item>>, newarray: array<seq<Item>>, i: nat,
                    ghost left0: map<word, Item>, ghost moved0: map<word, Item>, ghost all: map<word, Item>)
      returns (ghost left: map<word, Item>, ghost moved: map<word, Item>)
      requires oldarray != newarray && i < oldarray.Length && newarray.Length > 0
      requires Agree(hash, left0, oldarray[..]) && Agree(hash, moved0, newarray[..])
      requires Shared(all, left0, moved0)
      modifies oldarray, newarray
      ensures Agree(hash, left, oldarray[..]) && Agree(hash, moved, newarray[..])
      ensures Shared(all, left, moved)
      ensures oldarray[i] == []
      ensures forall j :: 0 <= j < oldarray.Length && j != i ==> oldarray[j] == old(oldarray[j])
    {
      hide Agree, Known, Distinct;
      left, moved := left0, moved0;
      while oldarray[i] != []
        invariant Agree(hash, left, oldarray[..]) && Agree(hash, moved, newarray[..])
        invariant Shared(all, left, moved)
        invariant forall j :: 0 <= j < oldarray.Length && j != i ==> oldarray[j] == old(oldarray[j])
        decreases |oldarray[i]|
      {
        left, moved := MoveFirst(oldarray, newarray, i, left, moved, all);
        assert forall j :: 0 <= j < oldarray.Length ==> oldarray[j] == oldarray[..][j];
      }
    }

    method SetSlot(a: array<seq<Item>>, i: nat, l: seq<Item>)
      requires i < a.Length
      modifies a
      ensures a[..] == old(a[..])[i := l]
    {
      a[i] := l;
    }

    // The first item of a slot moves.
    method MoveFirst(oldarray: array<seq<Item>>, newarray: array<seq<Item>>, i: nat,
                     ghost left0: map<word, Item>, ghost moved0: map<word, Item>, ghost all: map<word, Item>)
      returns (ghost left: map<word, Item>, ghost moved: map<word, Item>)
      requires oldarray != newarray && i < oldarray.Length && newarray.Length > 0 && oldarray[i] != []
      requires Agree(hash, left0, oldarray[..]) && Agree(hash, moved0, newarray[..])
      requires Shared(all, left0, moved0)
      modifies oldarray, newarray
      ensures Agree(hash, left, oldarray[..]) && Agree(hash, moved, newarray[..])
      ensures Shared(all, left, moved)
      ensures oldarray[..] == old(oldarray[..])[i := old(oldarray[i])[1..]]
    {
      hide Agree, Shared;
      var hitm := oldarray[i][0];
      MoveAgrees(hash, left0, moved0, all, oldarray[..], newarray[..], i);
      SetSlot(oldarray, i, oldarray[i][1..]);
      var newslot := hash(hitm.key) % newarray.Length;
      SetSlot(newarray, newslot, newarray[newslot] + [hitm]);
      left, moved := left0 - {hitm.key}, moved0[hitm.key := hitm];
    }
  }

  // What the move makes of the two tables.
  lemma MoveAgrees(hash: word -> nat, left: map<word, Item>, moved: map<word, Item>, all: map<word, Item>,
                   s: seq<seq<Item>>, t: seq<seq<Item>>, i: nat)
    requires i < |s| && s[i] != [] && t != []
    requires Agree(hash, left, s) && Agree(hash, moved, t) && Shared(all, left, moved)
    ensures var x := s[i][0]; var h := hash(x.key) % |t|;
      && Agree(hash, left - {x.key}, s[i := s[i][1..]])
      && Agree(hash, moved[x.key := x], t[h := t[h] + [x]])
      && Shared(all, left - {x.key}, moved[x.key := x])
  {
    hide Agree, Shared, Distinct, Without;
    WithoutFirst(s[i]);
    RemoveAgrees(hash, left, s, i, 0);
    ShareOne(all, left, moved, s[i][0]);
    AddAgrees(hash, moved, t, s[i][0]);
  }

  // What is left and what has moved are the two parts of all.
  ghost predicate Shared(all: map<word, Item>, left: map<word, Item>, moved: map<word, Item>) {
    left.Keys !! moved.Keys && left + moved == all
  }

  lemma ShareOne(all: map<word, Item>, left: map<word, Item>, moved: map<word, Item>, x: Item)
    requires Shared(all, left, moved) && x.key in left && left[x.key] == x
    ensures x.key !in moved && Shared(all, left - {x.key}, moved[x.key := x])
  {
  }
}

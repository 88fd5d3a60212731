/** The child array behind a trie node (src/protocols/pubsub/trie.h:61-84).

    The array is sparse (up to eight entries, each tagged with its character) or
    dense (one slot for every character between `min` and `max`).  The table is
    generic in what a slot holds, so that the same functions describe the array of
    pointers in memory and the sequence of subtrees it stands for; `nil` is the
    value of an empty slot. */
module ChildTable {
  import opened Bytes

  const SPARSE_MAX: nat := 8

  datatype Layout =
    | Sparse(chars: seq<byte>)
    | Dense(min: byte, max: byte, nbr: nat)

  datatype Table<T> = Table(layout: Layout, slots: seq<T>)

  // The first position of c, or the length when c does not occur.
  function IndexOf(chars: seq<byte>, c: byte): (i: nat)
    ensures i <= |chars|
    ensures i < |chars| ==> chars[i] == c
    ensures forall j :: 0 <= j < i ==> chars[j] != c
  {
    if chars == [] then 0
    else if chars[0] == c then 0
    else 1 + IndexOf(chars[1..], c)
  }

  // The slot grid_node_next returns for a character, if any.
  function Slot(layout: Layout, c: byte): Option<nat> {
    match layout
    case Sparse(chars) =>
      var i := IndexOf(chars, c);
      if i < |chars| then Some(i) else None
    case Dense(min, max, _) =>
      if c < min || c > max then None else Some(c - min)
  }

  // The number of occupied slots.
  function Live<T(==)>(slots: seq<T>, nil: T): nat {
    if slots == [] then 0 else (if slots[0] == nil then 0 else 1) + Live(slots[1..], nil)
  }

  ghost predicate Distinct<T>(s: seq<T>) {
    forall i, j :: 0 <= i < j < |s| ==> s[i] != s[j]
  }

  predicate Sized<T>(t: Table<T>) {
    match t.layout
    case Sparse(chars) => |chars| == |t.slots| <= SPARSE_MAX
    case Dense(min, max, _) => min <= max && |t.slots| == max - min + 1
  }

  ghost predicate Valid<T>(t: Table<T>, nil: T) {
    && Sized(t)
    && match t.layout
       case Sparse(chars) => Distinct(chars) && nil !in t.slots
       case Dense(_, _, nbr) =>
         && nbr == Live(t.slots, nil) > SPARSE_MAX
         && t.slots[0] != nil && t.slots[|t.slots| - 1] != nil
  }

  function At<T>(t: Table<T>, nil: T, c: byte): (x: T)
    requires Sized(t)
    ensures x == nil || x in t.slots
  {
    match Slot(t.layout, c)
    case None => nil
    case Some(i) => t.slots[i]
  }

  function Min(a: byte, b: byte): byte { if a < b then a else b }

  function Max(a: byte, b: byte): byte { if a > b then a else b }

  function Lowest(chars: seq<byte>, acc: byte): byte {
    if chars == [] then acc else Lowest(chars[1..], Min(acc, chars[0]))
  }

  function Highest(chars: seq<byte>, acc: byte): byte {
    if chars == [] then acc else Highest(chars[1..], Max(acc, chars[0]))
  }

  // The slots of a fresh dense array over min..max holding what a sparse one held.
  function Spread<T>(chars: seq<byte>, slots: seq<T>, nil: T, min: byte, max: byte): (r: seq<T>)
    requires |chars| == |slots| && min <= max
    ensures |r| == max - min + 1
  {
    seq(max - min + 1, k requires 0 <= k < max - min + 1 =>
      var i := IndexOf(chars, k + min); if i < |chars| then slots[i] else nil)
  }

  // Step 3 of grid_trie_subscribe: make room for c and store x in its slot.
  function Grow<T>(t: Table<T>, nil: T, c: byte, x: T): Table<T>
    requires Sized(t)
  {
    match t.layout
    case Sparse(chars) =>
      if |chars| < SPARSE_MAX then
        Table(Sparse(chars + [c]), t.slots + [x])
      else
        var min := Min(Lowest(chars, 255), c);
        var max := Max(Highest(chars, 0), c);
        RangeBounds(chars, c);
        Table(Dense(min, max, |chars| + 1), Spread(chars, t.slots, nil, min, max)[c - min := x])
    case Dense(min, max, nbr) =>
      if c < min then
        Table(Dense(c, max, nbr + 1), [x] + seq(min - c - 1, _ => nil) + t.slots)
      else if c > max then
        Table(Dense(min, c, nbr + 1), t.slots + seq(c - max - 1, _ => nil) + [x])
      else
        Table(Dense(min, max, nbr + 1), t.slots[c - min := x])
  }

  lemma {:induction false} LowestBounds(chars: seq<byte>, acc: byte)
    ensures Lowest(chars, acc) <= acc
    ensures forall i :: 0 <= i < |chars| ==> Lowest(chars, acc) <= chars[i]
    ensures Lowest(chars, acc) == acc || Lowest(chars, acc) in chars
  {
    if chars != [] {
      LowestBounds(chars[1..], Min(acc, chars[0]));
      assert forall i :: 0 < i < |chars| ==> chars[i] == chars[1..][i - 1];
    }
  }

  lemma {:induction false} HighestBounds(chars: seq<byte>, acc: byte)
    ensures Highest(chars, acc) >= acc
    ensures forall i :: 0 <= i < |chars| ==> Highest(chars, acc) >= chars[i]
    ensures Highest(chars, acc) == acc || Highest(chars, acc) in chars
  {
    if chars != [] {
      HighestBounds(chars[1..], Max(acc, chars[0]));
      assert forall i :: 0 < i < |chars| ==> chars[i] == chars[1..][i - 1];
    }
  }

  lemma RangeBounds(chars: seq<byte>, c: byte)
    ensures Min(Lowest(chars, 255), c) <= c <= Max(Highest(chars, 0), c)
    ensures forall i :: 0 <= i < |chars| ==>
      Min(Lowest(chars, 255), c) <= chars[i] <= Max(Highest(chars, 0), c)
    ensures Min(Lowest(chars, 255), c) in chars + [c]
    ensures Max(Highest(chars, 0), c) in chars + [c]
  {
    LowestBounds(chars, 255);
    HighestBounds(chars, 0);
  }

  // The first occupied slot, or the length when there is none.
  function FirstLive<T(==)>(slots: seq<T>, nil: T): (i: nat)
    ensures i <= |slots|
    ensures i < |slots| ==> slots[i] != nil
    ensures forall j :: 0 <= j < i ==> slots[j] == nil
  {
    if slots == [] then 0
    else if slots[0] != nil then 0
    else 1 + FirstLive(slots[1..], nil)
  }

  // One past the last occupied slot, or 0 when there is none.
  function LastLive<T(==)>(slots: seq<T>, nil: T): (i: nat)
    ensures i <= |slots|
    ensures i > 0 ==> slots[i - 1] != nil
    ensures forall j :: i <= j < |slots| ==> slots[j] == nil
  {
    if slots == [] then 0
    else if slots[|slots| - 1] != nil then |slots|
    else LastLive(slots[..|slots| - 1], nil)
  }

  // The occupied slots of a dense array as a sparse table, in order.
  function Gather<T(==)>(slots: seq<T>, nil: T, min: nat): (r: (seq<byte>, seq<T>))
    requires min + |slots| <= 256
    ensures |r.0| == |r.1| == Live(slots, nil)
  {
    if slots == [] then ([], [])
    else
      var rest := Gather(slots[1..], nil, min + 1);
      if slots[0] == nil then rest else ([min] + rest.0, [slots[0]] + rest.1)
  }

  // What grid_node_unsubscribe does to the array once the child at slot i, reached
  // through character c, is gone.  None is the assertion failure at trie.c:623.
  function Shrink<T(==)>(t: Table<T>, nil: T, i: nat, c: byte): Option<Table<T>>
    requires Sized(t) && i < |t.slots|
  {
    match t.layout
    case Sparse(chars) =>
      Some(Table(Sparse(chars[..i] + chars[i + 1..]), t.slots[..i] + t.slots[i + 1..]))
    case Dense(min, max, nbr) =>
      var slots := t.slots[i := nil];
      if nbr > SPARSE_MAX + 1 then
        if c == min then
          var k := FirstLive(slots, nil);
          if k == |slots| then None
          else Some(Table(Dense(min + k, max, nbr - 1), slots[k..]))
        else if c == max then
          var k := LastLive(slots[1..], nil);
          Some(Table(Dense(min, min + k, nbr - 1), slots[..k + 1]))
        else
          Some(Table(Dense(min, max, nbr - 1), slots))
      else
        var (chars, kept) := Gather(slots, nil, min);
        if |kept| != SPARSE_MAX then None else Some(Table(Sparse(chars), kept))
  }

  // ---------- Live counts ----------

  lemma {:induction false} LiveConcat<T>(a: seq<T>, b: seq<T>, nil: T)
    ensures Live(a + b, nil) == Live(a, nil) + Live(b, nil)
  {
    if a == [] {
      assert a + b == b;
    } else {
      assert (a + b)[1..] == a[1..] + b;
      LiveConcat(a[1..], b, nil);
    }
  }

  lemma LiveUpdate<T>(s: seq<T>, i: nat, x: T, nil: T)
    requires i < |s|
    ensures Live(s[i := x], nil) ==
      Live(s, nil) - (if s[i] == nil then 0 else 1) + (if x == nil then 0 else 1)
  {
    assert s == s[..i] + [s[i]] + s[i + 1..];
    assert s[i := x] == s[..i] + [x] + s[i + 1..];
    LiveConcat(s[..i], [s[i]], nil);
    LiveConcat(s[..i] + [s[i]], s[i + 1..], nil);
    LiveConcat(s[..i], [x], nil);
    LiveConcat(s[..i] + [x], s[i + 1..], nil);
  }

  lemma {:induction false} LiveNone<T>(s: seq<T>, nil: T)
    requires forall i :: 0 <= i < |s| ==> s[i] == nil
    ensures Live(s, nil) == 0
  {
    if s != [] { LiveNone(s[1..], nil); }
  }

  lemma {:induction false} LiveSome<T>(s: seq<T>, nil: T)
    requires Live(s, nil) > 0
    ensures exists i :: 0 <= i < |s| && s[i] != nil
  {
    if s[0] == nil {
      LiveSome(s[1..], nil);
      var i :| 0 <= i < |s[1..]| && s[1..][i] != nil;
      assert s[i + 1] != nil;
    }
  }

  // ---------- Grow ----------

  lemma GrowSparse<T>(t: Table<T>, nil: T, c: byte, x: T)
    requires Valid(t, nil) && t.layout.Sparse? && |t.layout.chars| < SPARSE_MAX
    requires At(t, nil, c) == nil && x != nil
    ensures Valid(Grow(t, nil, c, x), nil)
    ensures forall d: byte ::
      At(Grow(t, nil, c, x), nil, d) == if d == c then x else At(t, nil, d)
  {
    var chars := t.layout.chars;
    assert c !in chars;
    forall d: byte
      ensures At(Grow(t, nil, c, x), nil, d) == if d == c then x else At(t, nil, d)
    {
      IndexOfAppend(chars, c, d);
    }
  }

  lemma {:induction false} IndexOfAppend(chars: seq<byte>, c: byte, d: byte)
    ensures IndexOf(chars + [c], d) ==
      if d in chars then IndexOf(chars, d) else if d == c then |chars| else |chars| + 1
  {
    if chars != [] {
      assert (chars + [c])[1..] == chars[1..] + [c];
      IndexOfAppend(chars[1..], c, d);
    }
  }

  lemma IndexOfUnique(chars: seq<byte>, i: nat)
    requires Distinct(chars) && i < |chars|
    ensures IndexOf(chars, chars[i]) == i
  {
  }

  lemma SpreadAppend<T>(chars: seq<byte>, slots: seq<T>, nil: T, min: byte, max: byte, c: byte, x: T)
    requires |chars| == |slots| && min <= c <= max && c !in chars
    ensures Spread(chars + [c], slots + [x], nil, min, max)
      == Spread(chars, slots, nil, min, max)[c - min := x]
  {
    var s := Spread(chars, slots, nil, min, max);
    var s' := Spread(chars + [c], slots + [x], nil, min, max);
    forall k | 0 <= k < |s| ensures s'[k] == s[c - min := x][k] {
      var b: byte := k + min;
      IndexOfAppend(chars, c, b);
      var i, i' := IndexOf(chars, b), IndexOf(chars + [c], b);
      assert s'[k] == if i' < |chars| + 1 then (slots + [x])[i'] else nil;
      assert s[k] == if i < |chars| then slots[i] else nil;
    }
  }

  // A fresh dense array has exactly as many occupied slots as the sparse one.
  lemma {:induction false} SpreadLive<T>(chars: seq<byte>, slots: seq<T>, nil: T, min: byte, max: byte)
    requires |chars| == |slots| && min <= max && Distinct(chars) && nil !in slots
    requires forall i :: 0 <= i < |chars| ==> min <= chars[i] <= max
    ensures Live(Spread(chars, slots, nil, min, max), nil) == |chars|
  {
    if chars == [] {
      SpreadNone(nil, min, max);
      LiveNone(Spread(chars, slots, nil, min, max), nil);
    } else {
      var n := |chars| - 1;
      var s := Spread(chars[..n], slots[..n], nil, min, max);
      SpreadLive(chars[..n], slots[..n], nil, min, max);
      assert chars == chars[..n] + [chars[n]] && slots == slots[..n] + [slots[n]];
      SpreadAppend(chars[..n], slots[..n], nil, min, max, chars[n], slots[n]);
      assert IndexOf(chars[..n], chars[n]) == n;
      LiveUpdate(s, chars[n] - min, slots[n], nil);
    }
  }

  lemma SpreadNone<T>(nil: T, min: byte, max: byte)
    requires min <= max
    ensures Spread([], [], nil, min, max) == seq(max - min + 1, _ => nil)
  {
    var s := Spread([], [], nil, min, max);
    forall k | 0 <= k < |s| ensures s[k] == nil {
      assert IndexOf([], k + min) == 0;
    }
  }

  lemma GrowConvertAt<T>(t: Table<T>, nil: T, c: byte, x: T, d: byte)
    requires Sized(t) && t.layout.Sparse? && |t.layout.chars| == SPARSE_MAX
    ensures At(Grow(t, nil, c, x), nil, d) == if d == c then x else At(t, nil, d)
  {
    RangeBounds(t.layout.chars, c);
    assert d in t.layout.chars ==> t.layout.chars[IndexOf(t.layout.chars, d)] == d;
  }

  lemma GrowConvert<T>(t: Table<T>, nil: T, c: byte, x: T)
    requires Valid(t, nil) && t.layout.Sparse? && |t.layout.chars| == SPARSE_MAX
    requires At(t, nil, c) == nil && x != nil
    ensures Valid(Grow(t, nil, c, x), nil)
  {
    var chars := t.layout.chars;
    RangeBounds(chars, c);
    var min := Min(Lowest(chars, 255), c);
    var max := Max(Highest(chars, 0), c);
    var s := Spread(chars, t.slots, nil, min, max);
    assert IndexOf(chars, c) == |chars|;
    SpreadLive(chars, t.slots, nil, min, max);
    LiveUpdate(s, c - min, x, nil);
    SpreadHit(chars, t.slots, nil, min, max, min);
    SpreadHit(chars, t.slots, nil, min, max, max);
  }

  lemma SpreadHit<T>(chars: seq<byte>, slots: seq<T>, nil: T, min: byte, max: byte, b: byte)
    requires |chars| == |slots| && min <= b <= max && nil !in slots
    ensures b in chars ==> Spread(chars, slots, nil, min, max)[b - min] != nil
  {
    if b in chars {
      assert IndexOf(chars, b) < |chars|;
    }
  }

  lemma GrowDense<T>(t: Table<T>, nil: T, c: byte, x: T)
    requires Valid(t, nil) && t.layout.Dense?
    requires At(t, nil, c) == nil && x != nil
    ensures Valid(Grow(t, nil, c, x), nil)
    ensures forall d: byte ::
      At(Grow(t, nil, c, x), nil, d) == if d == c then x else At(t, nil, d)
  {
    var Dense(min, max, nbr) := t.layout;
    if c < min {
      var gap := seq(min - c - 1, _ => nil);
      LiveNone(gap, nil);
      LiveConcat([x], gap, nil);
      LiveConcat([x] + gap, t.slots, nil);
    } else if c > max {
      var gap := seq(c - max - 1, _ => nil);
      LiveNone(gap, nil);
      LiveConcat(t.slots, gap, nil);
      LiveConcat(t.slots + gap, [x], nil);
    } else {
      LiveUpdate(t.slots, c - min, x, nil);
    }
  }

  // Growing a table changes the entry for c and nothing else.
  lemma GrowAt<T>(t: Table<T>, nil: T, c: byte, x: T)
    requires Valid(t, nil) && At(t, nil, c) == nil && x != nil
    ensures Valid(Grow(t, nil, c, x), nil)
    ensures forall d: byte ::
      At(Grow(t, nil, c, x), nil, d) == if d == c then x else At(t, nil, d)
  {
    if t.layout.Dense? {
      GrowDense(t, nil, c, x);
    } else if |t.layout.chars| < SPARSE_MAX {
      GrowSparse(t, nil, c, x);
    } else {
      GrowConvert(t, nil, c, x);
      forall d: byte { GrowConvertAt(t, nil, c, x, d); }
    }
  }

  // ---------- Shrink ----------

  lemma {:induction false} IndexOfRemove(chars: seq<byte>, i: nat, d: byte)
    requires i < |chars| && Distinct(chars)
    ensures IndexOf(chars[..i] + chars[i + 1..], d) ==
      var k := IndexOf(chars, d); if k < i then k else if k == i then |chars| - 1 else k - 1
  {
    var r := chars[..i] + chars[i + 1..];
    var k := IndexOf(chars, d);
    var m := IndexOf(r, d);
    if m < |r| {
      assert chars[if m < i then m else m + 1] == d;
    }
    if k < i {
      assert r[k] == d;
    } else if i < k < |chars| {
      assert r[k - 1] == d;
    }
  }

  lemma ShrinkSparseAt<T>(t: Table<T>, nil: T, i: nat, c: byte, d: byte)
    requires Sized(t) && t.layout.Sparse? && Distinct(t.layout.chars)
    requires Slot(t.layout, c) == Some(i)
    ensures At(Shrink(t, nil, i, c).value, nil, d) == if d == c then nil else At(t, nil, d)
  {
    IndexOfRemove(t.layout.chars, i, d);
  }

  lemma DistinctRemove<T>(s: seq<T>, i: nat)
    requires Distinct(s) && i < |s|
    ensures Distinct(s[..i] + s[i + 1..])
  {
  }

  lemma {:induction false} GatherChars<T>(slots: seq<T>, nil: T, min: nat)
    requires min + |slots| <= 256
    ensures nil !in Gather(slots, nil, min).1
    ensures Distinct(Gather(slots, nil, min).0)
    ensures forall b :: b in Gather(slots, nil, min).0 ==> min <= b < min + |slots|
  {
    if slots != [] {
      GatherChars(slots[1..], nil, min + 1);
      if slots[0] != nil {
        DistinctCons(min, Gather(slots[1..], nil, min + 1).0);
      }
    }
  }

  lemma DistinctCons<T>(x: T, s: seq<T>)
    requires Distinct(s) && x !in s
    ensures Distinct([x] + s)
  {
  }

  function Pick<T>(chars: seq<byte>, kept: seq<T>, nil: T, d: byte): T
    requires |chars| == |kept|
  {
    var i := IndexOf(chars, d); if i < |chars| then kept[i] else nil
  }

  lemma {:induction false} GatherAt<T>(slots: seq<T>, nil: T, min: nat, d: byte)
    requires min + |slots| <= 256
    ensures Pick(Gather(slots, nil, min).0, Gather(slots, nil, min).1, nil, d)
      == if min <= d < min + |slots| then slots[d - min] else nil
  {
    if slots != [] {
      var (chars, kept) := Gather(slots[1..], nil, min + 1);
      GatherAt(slots[1..], nil, min + 1, d);
      if slots[0] != nil {
        PickCons(chars, kept, nil, min, slots[0], d);
      }
    }
  }

  lemma PickCons<T>(chars: seq<byte>, kept: seq<T>, nil: T, c: byte, x: T, d: byte)
    requires |chars| == |kept|
    ensures Pick([c] + chars, [x] + kept, nil, d) == if d == c then x else Pick(chars, kept, nil, d)
  {
    assert ([c] + chars)[1..] == chars;
  }

  lemma ShrinkConvert<T>(t: Table<T>, nil: T, i: nat, c: byte)
    requires Valid(t, nil) && t.layout.Dense? && t.layout.nbr == SPARSE_MAX + 1
    requires Slot(t.layout, c) == Some(i) && t.slots[i] != nil
    ensures Shrink(t, nil, i, c).Some?
    ensures var r := Shrink(t, nil, i, c).value;
      && Valid(r, nil)
      && forall d: byte :: At(r, nil, d) == if d == c then nil else At(t, nil, d)
  {
    LiveUpdate(t.slots, i, nil, nil);
    var slots := t.slots[i := nil];
    GatherChars(slots, nil, t.layout.min);
    var r := Shrink(t, nil, i, c).value;
    forall d: byte ensures At(r, nil, d) == if d == c then nil else At(t, nil, d) {
      GatherAt(slots, nil, t.layout.min, d);
    }
  }

  lemma LiveWithin<T>(s: seq<T>, lo: nat, hi: nat, nil: T)
    requires lo <= hi <= |s|
    requires forall j :: 0 <= j < lo ==> s[j] == nil
    requires forall j :: hi <= j < |s| ==> s[j] == nil
    ensures Live(s[lo..hi], nil) == Live(s, nil)
  {
    assert s == s[..lo] + s[lo..hi] + s[hi..];
    LiveConcat(s[..lo], s[lo..hi], nil);
    LiveConcat(s[..lo] + s[lo..hi], s[hi..], nil);
    LiveNone(s[..lo], nil);
    LiveNone(s[hi..], nil);
  }

  // The first slot in use once the first slot has been emptied.
  lemma NewFirst<T>(t: Table<T>, nil: T)
    requires Valid(t, nil) && t.layout.Dense? && t.layout.nbr > SPARSE_MAX + 1
    ensures var slots := t.slots[0 := nil]; var k := FirstLive(slots, nil);
      && 0 < k < |slots| && slots[k] != nil
      && Live(slots[k..], nil) == t.layout.nbr - 1
      && forall j :: 0 <= j < k ==> slots[j] == nil
  {
    hide Live;
    var slots := t.slots[0 := nil];
    LiveUpdate(t.slots, 0, nil, nil);
    LiveSome(slots, nil);
    var k := FirstLive(slots, nil);
    LiveWithin(slots, k, |slots|, nil);
    assert slots[k..|slots|] == slots[k..];
  }

  lemma TrimLeft<T>(t: Table<T>, nil: T)
    requires Valid(t, nil) && t.layout.Dense? && t.layout.nbr > SPARSE_MAX + 1
    ensures var c := t.layout.min; var r := Shrink(t, nil, 0, c);
      && r.Some? && Valid(r.value, nil)
      && forall d: byte :: At(r.value, nil, d) == if d == c then nil else At(t, nil, d)
  {
    hide Live, FirstLive;
    NewFirst(t, nil);
    var r := Shrink(t, nil, 0, t.layout.min).value;
    assert r.slots[|r.slots| - 1] == t.slots[|t.slots| - 1];
    assert Valid(r, nil);
    forall d: byte ensures At(r, nil, d) == if d == t.layout.min then nil else At(t, nil, d) {
      if t.layout.min < d <= t.layout.max { assert t.slots[0 := nil][d - t.layout.min] == t.slots[d - t.layout.min]; }
    }
  }

  lemma OneLive<T>(x: T, nil: T)
    ensures Live([x], nil) <= 1
  {
  }

  // The last slot in use once the last slot has been emptied.
  lemma NewLast<T>(t: Table<T>, nil: T)
    requires Valid(t, nil) && t.layout.Dense? && t.layout.nbr > SPARSE_MAX + 1
    requires t.layout.min < t.layout.max
    ensures var slots := t.slots[|t.slots| - 1 := nil]; var k := LastLive(slots[1..], nil);
      && 0 < k < |slots| - 1 && slots[k] != nil
      && Live(slots[..k + 1], nil) == t.layout.nbr - 1
      && forall j :: k < j < |slots| ==> slots[j] == nil
  {
    hide Live;
    var n := |t.slots| - 1;
    var slots := t.slots[n := nil];
    LiveUpdate(t.slots, n, nil, nil);
    LiveConcat([slots[0]], slots[1..], nil);
    assert slots == [slots[0]] + slots[1..];
    OneLive(slots[0], nil);
    var k := LastLive(slots[1..], nil);
    if k == 0 { LiveNone(slots[1..], nil); }
    assert forall j :: k < j < |slots| ==> slots[j] == slots[1..][j - 1] == nil;
    LiveWithin(slots, 0, k + 1, nil);
    assert slots[0..k + 1] == slots[..k + 1];
    assert k > 0 ==> slots[k] == slots[1..][k - 1];
  }

  lemma TrimRight<T>(t: Table<T>, nil: T)
    requires Valid(t, nil) && t.layout.Dense? && t.layout.nbr > SPARSE_MAX + 1
    requires t.layout.min < t.layout.max
    ensures var c := t.layout.max; var r := Shrink(t, nil, |t.slots| - 1, c);
      && r.Some? && Valid(r.value, nil)
      && forall d: byte :: At(r.value, nil, d) == if d == c then nil else At(t, nil, d)
  {
    hide Live, LastLive;
    NewLast(t, nil);
    var n := |t.slots| - 1;
    var r := Shrink(t, nil, n, t.layout.max).value;
    assert r.slots[0] == t.slots[0];
    assert Valid(r, nil);
    forall d: byte ensures At(r, nil, d) == if d == t.layout.max then nil else At(t, nil, d) {
      if t.layout.min <= d < t.layout.max { assert t.slots[n := nil][d - t.layout.min] == t.slots[d - t.layout.min]; }
    }
  }

  lemma TrimNone<T>(t: Table<T>, nil: T, i: nat, c: byte)
    requires Valid(t, nil) && t.layout.Dense? && t.layout.nbr > SPARSE_MAX + 1
    requires t.layout.min < c < t.layout.max && i == c - t.layout.min && t.slots[i] != nil
    ensures var r := Shrink(t, nil, i, c);
      && r.Some? && Valid(r.value, nil)
      && forall d: byte :: At(r.value, nil, d) == if d == c then nil else At(t, nil, d)
  {
    LiveUpdate(t.slots, i, nil, nil);
  }

  // Dropping the child for c from a valid table never fails, keeps the table valid,
  // and changes no other entry.
  lemma ShrinkAt<T>(t: Table<T>, nil: T, i: nat, c: byte)
    requires Valid(t, nil) && Slot(t.layout, c) == Some(i) && t.slots[i] != nil
    ensures Shrink(t, nil, i, c).Some?
    ensures var r := Shrink(t, nil, i, c).value;
      && Valid(r, nil)
      && forall d: byte :: At(r, nil, d) == if d == c then nil else At(t, nil, d)
  {
    if t.layout.Sparse? {
      DistinctRemove(t.layout.chars, i);
      forall d: byte { ShrinkSparseAt(t, nil, i, c, d); }
    } else if t.layout.nbr > SPARSE_MAX + 1 {
      if c == t.layout.min {
        TrimLeft(t, nil);
      } else if c == t.layout.max {
        TrimRight(t, nil);
      } else {
        TrimNone(t, nil, i, c);
      }
    } else {
      ShrinkConvert(t, nil, i, c);
    }
  }

  // Taking a slot that was already empty miscounts: the table is either left with a
  // wrong `nbr` or the conversion overruns its eight entries.
  lemma ShrinkHole<T>(t: Table<T>, nil: T, i: nat, c: byte)
    requires Valid(t, nil) && Slot(t.layout, c) == Some(i) && t.slots[i] == nil
    ensures t.layout.Dense?
    ensures var r := Shrink(t, nil, i, c); r.Some? ==> !Valid(r.value, nil)
    ensures Shrink(t, nil, i, c).None? <==> t.layout.nbr == SPARSE_MAX + 1
  {
    assert t.slots[i := nil] == t.slots;
  }
}

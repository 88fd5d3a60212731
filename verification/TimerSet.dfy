/** The ordered set of timers (src/aio/timerset.c), on the intrusive list. */
module TimerSet {
  import opened List

  const WRAP: nat := 0x1_0000_0000_0000_0000

  // A handle: an item whose value is the instant that the timeout is due.
  type Handle = Item<nat>

  // now + timeout in 64 unsigned bits.
  function Deadline(now: nat, timeout: int): (d: nat)
    ensures 0 <= now + timeout < WRAP ==> d == now + timeout
  {
    (now + timeout) % WRAP
  }

  // The difference cast to an int.
  function Remaining(deadline: nat, now: nat): (r: int)
    ensures -0x8000_0000 <= r < 0x8000_0000 && (r - (deadline - now)) % 0x1_0000_0000 == 0
    ensures -0x8000_0000 <= deadline - now < 0x8000_0000 ==> r == deadline - now
  {
    (deadline - now + 0x8000_0000) % 0x1_0000_0000 - 0x8000_0000
  }

  predicate Sorted(s: seq<nat>) {
    forall i, j :: 0 <= i < j < |s| ==> s[i] <= s[j]
  }

  // Where a timer due at d belongs: behind all that are due no later.
  predicate Belongs(s: seq<nat>, at: nat, d: nat) {
    at <= |s| && (forall i :: 0 <= i < at ==> s[i] <= d) && (forall i :: at <= i < |s| ==> d < s[i])
  }

  lemma BelongsHere(s: seq<nat>, at: nat, d: nat)
    requires Sorted(s) && at <= |s| && (at < |s| ==> d < s[at])
    requires forall i :: 0 <= i < at ==> s[i] <= d
    ensures Belongs(s, at, d)
  {
  }

  lemma StaysSorted(s: seq<nat>, at: nat, d: nat)
    requires Sorted(s) && Belongs(s, at, d)
    ensures Sorted(s[..at] + [d] + s[at..])
  {
  }

  lemma LessSorted(s: seq<nat>, at: nat)
    requires Sorted(s) && at < |s|
    ensures Sorted(s[..at] + s[at + 1..])
    ensures at == 0 ==> s[..at] + s[at + 1..] == s[1..]
  {
  }

  predicate NoneDue(s: seq<nat>, now: nat) { forall d :: d in s ==> d > now }

  predicate NoneBefore(s: seq<nat>, d: nat) { forall e :: e in s ==> d <= e }

  lemma HeadDecides(s: seq<nat>, now: nat)
    requires Sorted(s)
    ensures NoneDue(s, now) <==> s == [] || s[0] > now
    ensures s != [] ==> NoneBefore(s[1..], s[0]) && s == [s[0]] + s[1..]
  {
    if s != [] { assert s[0] in s; }
  }

  class TimerSet {
    const timeouts: List<nat>

    ghost predicate Valid()
      reads this, timeouts, timeouts.items
    {
      timeouts.Valid() && Sorted(Values(timeouts.items))
    }

    // grid_timerset_init.
    constructor ()
      ensures Valid() && timeouts.items == [] && fresh(timeouts)
    {
      timeouts := new List<nat>();
    }

    /** grid_timerset_add: the handle goes behind all that are due no later and in front of
        all others; the result is whether there is a new first one. */
    method Add(now: nat, timeout: int, hndl: Handle) returns (first: bool, ghost at: nat)
      requires Valid() && !hndl.inList
      modifies timeouts, hndl, timeouts.items
      ensures Valid() && hndl.value == Deadline(now, timeout)
      ensures Belongs(old(Values(timeouts.items)), at, hndl.value)
      ensures timeouts.items == old(timeouts.items[..at]) + [hndl] + old(timeouts.items[at..])
      ensures Values(timeouts.items) ==
        old(Values(timeouts.items)[..at]) + [hndl.value] + old(Values(timeouts.items)[at..])
      ensures first <==> timeouts.At(0) != old(timeouts.At(0))
    {
      hide timeouts.Valid, timeouts.Linked, Values, Belongs, Sorted, Deadline;
      NotIn(timeouts, hndl);
      hndl.value := Deadline(now, timeout);
      var it;
      it, at := Place(hndl.value);
      FirstIs(timeouts, at);
      first := timeouts.first == it;
      StaysSorted(Values(timeouts.items), at, hndl.value);
      Put(hndl, it, at);
    }

    // Linking the handle in.
    method Put(hndl: Handle, it: Item?<nat>, ghost at: nat)
      requires timeouts.Valid() && !hndl.inList && at <= |timeouts.items| && it == timeouts.At(at)
      modifies timeouts, hndl, timeouts.items
      ensures timeouts.Valid() && hndl.value == old(hndl.value)
      ensures timeouts.items == old(timeouts.items[..at]) + [hndl] + old(timeouts.items[at..])
      ensures Values(timeouts.items)
        == old(Values(timeouts.items)[..at]) + [hndl.value] + old(Values(timeouts.items)[at..])
    {
      hide *;
      NotIn(timeouts, hndl);
      timeouts.Insert(hndl, it, at);
    }

    // The loop of grid_timerset_add.
    method Place(due: nat) returns (it: Item?<nat>, ghost at: nat)
      requires Valid()
      ensures Belongs(Values(timeouts.items), at, due)
      ensures at <= |timeouts.items| && it == timeouts.At(at)
    {
      hide timeouts.Valid, timeouts.Linked, Values, Sorted, Belongs;
      FirstIs(timeouts, 0);
      ghost var s := Values(timeouts.items);
      it := timeouts.first;
      at := 0;
      while it != null
        invariant at <= |s| && it == timeouts.At(at)
        invariant forall i :: 0 <= i < at ==> s[i] <= due
        decreases |s| - at
      {
        if due < it.value { break; }
        NextIs(timeouts, at);
        it := it.next;
        at := at + 1;
      }
      BelongsHere(s, at, due);
    }

    // Taking the handle out.
    method Take(hndl: Handle, ghost at: nat)
      requires timeouts.Valid() && at < |timeouts.items| && timeouts.items[at] == hndl
      modifies timeouts, timeouts.items
      ensures timeouts.Valid() && !hndl.inList && hndl.value == old(hndl.value)
      ensures timeouts.items == old(timeouts.items[..at]) + old(timeouts.items[at + 1..])
      ensures Values(timeouts.items)
        == old(Values(timeouts.items)[..at]) + old(Values(timeouts.items)[at + 1..])
    {
      hide *;
      var _ := timeouts.Erase(hndl, at);
    }

    /** grid_timerset_rm: a handle that is not in the list is left alone. */
    method Rm(hndl: Handle, ghost at: nat) returns (first: bool)
      requires Valid() && (hndl.inList ==> at < |timeouts.items| && timeouts.items[at] == hndl)
      modifies timeouts, timeouts.items
      ensures Valid() && !hndl.inList
      ensures old(!hndl.inList) ==>
        && timeouts.items == old(timeouts.items)
        && Values(timeouts.items) == old(Values(timeouts.items))
      ensures old(hndl.inList) ==>
        && timeouts.items == old(timeouts.items[..at]) + old(timeouts.items[at + 1..])
        && Values(timeouts.items) == old(Values(timeouts.items)[..at]) + old(Values(timeouts.items)[at + 1..])
      ensures first <==> timeouts.At(0) != old(timeouts.At(0))
    {
      hide timeouts.Valid, timeouts.Linked, Values, Sorted;
      if !hndl.inList { return false; }
      FirstIs(timeouts, at);
      LessSorted(Values(timeouts.items), at);
      first := timeouts.first == hndl;
      Take(hndl, at);
    }

    /** grid_timerset_timeout: how long to wait for the first one; -1 is forever. */
    method Timeout(now: nat) returns (ms: int)
      requires Valid()
      ensures timeouts.items == [] <==> ms == -1
      ensures timeouts.items != [] ==>
        var left := Remaining(Values(timeouts.items)[0], now);
        ms == if left < 0 then 0 else left
    {
      if timeouts.first == null { return -1; }
      ms := Remaining(timeouts.first.value, now);
      if ms < 0 { ms := 0; }
    }

    // Taking the first handle out.
    method Pop(first: Handle)
      requires Valid() && timeouts.items != [] && timeouts.items[0] == first
      modifies timeouts, timeouts.items
      ensures Valid() && !first.inList && first.value == old(first.value)
      ensures timeouts.items == old(timeouts.items[1..])
      ensures Values(timeouts.items) == old(Values(timeouts.items)[1..])
    {
      hide timeouts.Valid, timeouts.Linked, Values, Sorted;
      LessSorted(Values(timeouts.items), 0);
      Take(first, 0);
    }

    /** grid_timerset_event: the earliest handle, and of those due at the same instant the one
        added first, once it is due; EAGAIN before that. */
    method Event(now: nat) returns (hndl: Item?<nat>)
      requires Valid()
      modifies timeouts, timeouts.items
      ensures Valid()
      ensures hndl == null <==> NoneDue(old(Values(timeouts.items)), now)
      ensures hndl == null ==>
        && timeouts.items == old(timeouts.items)
        && Values(timeouts.items) == old(Values(timeouts.items))
      ensures hndl != null ==>
        && old(timeouts.items) == [hndl] + timeouts.items && !hndl.inList
        && old(Values(timeouts.items)) == [hndl.value] + Values(timeouts.items)
        && hndl.value <= now && NoneBefore(Values(timeouts.items), hndl.value)
    {
      hide timeouts.Valid, timeouts.Linked, Values, Sorted, NoneDue, NoneBefore;
      FirstIs(timeouts, 0);
      HeadDecides(Values(timeouts.items), now);
      var first := timeouts.first;
      if first == null { return null; }
      assert Values(timeouts.items)[0] == first.value;
      if first.value > now { return null; }
      Pop(first);
      return first;
    }
  }

  lemma NotIn(l: List<nat>, h: Handle)
    requires l.Valid() && !h.inList
    ensures h !in l.items
  {
    forall i | 0 <= i < |l.items| ensures l.items[i] != h { assert l.Linked(i); }
  }

  lemma NextIs(l: List<nat>, at: nat)
    requires l.Valid() && at < |l.items|
    ensures l.items[at].next == l.At(at + 1)
  {
    assert l.Linked(at);
  }

  lemma FirstIs(l: List<nat>, at: nat)
    requires l.Valid() && at <= |l.items|
    ensures l.first == l.At(0)
    ensures l.first == l.At(at) <==> at == 0 || l.items == []
    ensures |l.items| > 1 ==> l.items[0] != l.items[1]
  {
  }
}

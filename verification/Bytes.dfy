/** Bytes, options and copying, which the other modules share. */
module Bytes {

  type byte = b: int | 0 <= b < 256

  datatype Option<+T> = None | Some(value: T) {
    predicate IsFailure() { None? }

    function PropagateFailure<U>(): Option<U>
      requires None?
    {
      None
    }

    function Extract(): T
      requires Some?
    {
      value
    }
  }

  // memcpy into a buffer.
  method Copy(a: array<byte>, at: nat, b: seq<byte>)
    requires at + |b| <= a.Length
    modifies a
    ensures a[..at + |b|] == old(a[..at]) + b
    ensures a[at + |b|..] == old(a[at + |b|..])
  {
    for i := 0 to |b|
      invariant a[..at + i] == old(a[..at]) + b[..i]
      invariant a[at + i..] == old(a[at + i..])
    {
      a[at + i] := b[i];
      assert a[..at + i + 1] == a[..at + i] + [b[i]];
    }
  }
}

/** Words on the wire (src/utils/wire.c) and messages. */
module Wire {
  import opened Bytes

  const TOP: int := 0x8000_0000

  type word = w: int | 0 <= w < 0x1_0000_0000

  // grid_putl.
  function PutL(v: word): (b: seq<byte>)
    ensures |b| == 4
  {
    [v / 0x100_0000, v / 0x1_0000 % 0x100, v / 0x100 % 0x100, v % 0x100]
  }

  // grid_getl.
  function GetL(b: seq<byte>): word
    requires |b| >= 4
  {
    b[0] as int * 0x100_0000 + b[1] as int * 0x1_0000 + b[2] as int * 0x100 + b[3] as int
  }

  lemma GetPut(v: word, rest: seq<byte>)
    ensures GetL(PutL(v) + rest) == v
  {
    assert v == v / 0x100 * 0x100 + v % 0x100;
    assert v / 0x100 == v / 0x1_0000 * 0x100 + v / 0x100 % 0x100;
    assert v / 0x1_0000 == v / 0x100_0000 * 0x100 + v / 0x1_0000 % 0x100;
  }

  lemma PutGet(b: seq<byte>)
    requires |b| >= 4
    ensures PutL(GetL(b)) == b[..4]
  {
    var v := GetL(b);
    assert v / 0x100 == b[0] as int * 0x1_0000 + b[1] as int * 0x100 + b[2] as int;
    assert v / 0x1_0000 == b[0] as int * 0x100 + b[1] as int;
    assert v / 0x100_0000 == b[0];
  }

  // The word with its top bit set: x | 0x80000000.
  function WithTop(v: word): (r: word)
    ensures r >= TOP
    ensures r % TOP == v % TOP
  {
    if v >= TOP then v else v + TOP
  }

  // The word without it: x & 0x7fffffff.
  function WithoutTop(v: word): (r: word)
    ensures r < TOP && r == v % TOP
  {
    if v >= TOP then v - TOP else v
  }

  // Writes a word into a buffer.
  method WriteL(buf: array<byte>, pos: nat, v: word)
    requires pos + 4 <= buf.Length
    modifies buf
    ensures buf[..] == old(buf[..pos]) + PutL(v) + old(buf[pos + 4..])
    ensures GetL(buf[pos..]) == v
  {
    buf[pos] := v / 0x100_0000;
    buf[pos + 1] := v / 0x1_0000 % 0x100;
    buf[pos + 2] := v / 0x100 % 0x100;
    buf[pos + 3] := v % 0x100;
    GetPut(v, buf[pos + 4..]);
    assert buf[pos..] == PutL(v) + buf[pos + 4..];
  }

  // grid_msg: the SP header and the body.
  datatype Msg = Msg(hdr: seq<byte>, body: seq<byte>)

  // What a pipe hands over.  `parsed` is the flag GRID_PIPE_PARSED; without it the header
  // is empty and the body holds header and body as they were on the wire.
  datatype Delivery = Delivery(parsed: bool, msg: Msg)

  // What a pipe carries.
  function OnWire(m: Msg): seq<byte> { m.hdr + m.body }

  function Unparsed(m: Msg): Delivery { Delivery(false, Msg([], OnWire(m))) }

  predicate WellDelivered(d: Delivery) { !d.parsed ==> d.msg.hdr == [] }
}

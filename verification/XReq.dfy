/** The raw REQ socket (src/protocols/reqrep/xreq.c): splitting a reply. */
module XReq {
  import opened Bytes
  import opened Wire

  // grid_xreq_recv: four bytes of header, unless the transport has parsed the message
  // already.  None is -EAGAIN for a malformed reply, which is dropped.
  function Split(d: Delivery): Option<Msg> {
    if d.parsed then Some(d.msg)
    else if |d.msg.body| < 4 then None
    else Some(Msg(d.msg.body[..4], d.msg.body[4..]))
  }

  class XReq {
    var fq: seq<(nat, Delivery)>               // the fair queue, as the order it yields

    predicate Valid()
      reads this
    {
      forall q :: q in fq ==> WellDelivered(q.1)
    }

    // grid_xreq_init.
    constructor ()
      ensures Valid() && fq == []
    {
      fq := [];
    }

    /** grid_xreq_recv: what it returns has the wire bytes it received, in the same order. */
    method Recv() returns (msg: Option<Msg>)
      requires Valid()
      modifies this`fq
      ensures Valid()
      ensures old(fq) == [] ==> msg == None && fq == []
      ensures old(fq) != [] ==> fq == old(fq)[1..] && msg == Split(old(fq)[0].1)
      ensures msg.Some? ==> OnWire(msg.value) == OnWire(old(fq)[0].1.msg)
    {
      if fq == [] { return None; }
      var d := fq[0].1;
      fq := fq[1..];
      var sphdr, body := d.msg.hdr, d.msg.body;
      if !d.parsed {
        if |body| < 4 { return None; }
        sphdr, body := body[..4], body[4..];
      }
      return Some(Msg(sphdr, body));
    }
  }
}

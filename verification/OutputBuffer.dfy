/** The per-interface output buffer: messages are queued until the packet is sent. */
module OutputBuffer {

  /** IPv6 minimum MTU less IPv6, UDP and VLAN headers. */
  const MAX_REMAINING := 1280 - 40 - 8 - 4

  function Concat<T>(parts: seq<seq<T>>): seq<T> {
    if parts == [] then [] else Concat(parts[..|parts| - 1]) + parts[|parts| - 1]
  }

  lemma ConcatAppend<T>(parts: seq<seq<T>>, last: seq<T>)
    ensures Concat(parts + [last]) == Concat(parts) + last
  {
    assert (parts + [last])[..|parts|] == parts;
  }

  class Buffer<M> {
    /** Payload bytes that fit one packet. */
    const maxsize: nat
    /** Bytes queued, and the messages they belong to. */
    var pending: nat
    var queue: seq<M>
    /** The packets already sent. */
    var packets: seq<seq<M>>

    constructor (maxsize: nat)
      ensures this.maxsize == maxsize && pending == 0 && Stream() == [] && Valid()
    {
      this.maxsize, pending, queue, packets := maxsize, 0, [], [];
    }

    predicate Valid()
      reads this
    {
      pending <= maxsize && (pending == 0 ==> queue == [])
    }

    /** Every message ever accepted, in order. */
    ghost function Stream(): seq<M>
      reads this
    {
      Concat(packets) + queue
    }

    /** Room in an empty packet. */
    function Capacity(): nat {
      if maxsize > MAX_REMAINING then MAX_REMAINING else maxsize
    }

    /** `net_outbuffer_bytes_left`. */
    function BytesLeft(): (r: nat)
      requires Valid()
      reads this
      ensures r <= Capacity() && pending + r <= maxsize
      ensures pending == 0 ==> r == Capacity()
      ensures r < Capacity() ==> pending + r == maxsize
    {
      var remaining := maxsize - pending;
      if remaining > MAX_REMAINING then MAX_REMAINING else remaining
    }

    /** `net_outbuffer_push`: refuses, with result 0, what does not fit. */
    method Push(m: M, size: nat) returns (n: nat)
      requires Valid() && size > 0
      modifies this
      ensures Valid()
      ensures packets == old(packets)
      ensures if old(pending) + size <= maxsize
              then n == size && pending == old(pending) + size && Stream() == old(Stream()) + [m]
              else n == 0 && pending == old(pending) && Stream() == old(Stream())
    {
      if pending + size > maxsize {
        return 0;
      }
      queue := queue + [m];
      pending := pending + size;
      return size;
    }

    /** `net_output`: sends the queued messages as one packet. */
    method Output()
      requires Valid()
      modifies this
      ensures Valid() && pending == 0 && Stream() == old(Stream())
      ensures packets == if old(pending) == 0 then old(packets) else old(packets) + [old(queue)]
    {
      if pending == 0 {
        return;
      }
      ConcatAppend(packets, queue);
      packets := packets + [queue];
      queue, pending := [], 0;
    }

    /** A message that fits is queued and the packet sent off. */
    method PushOut(m: M, size: nat)
      requires Valid() && 0 < size && pending + size <= maxsize
      modifies this
      ensures Valid() && pending == 0 && Stream() == old(Stream()) + [m]
      ensures |packets| == |old(packets)| + 1
    {
      var _ := Push(m, size);
      Output();
    }
  }
}

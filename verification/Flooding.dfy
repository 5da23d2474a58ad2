/** Forwarding of a message by one node, and the flood it causes over a network. */
module Flooding {
  import opened Basics
  import opened SequenceNumbers
  import opened DuplicateSet
  import opened Bitmap

  datatype Mode = Mesh | Ether | Silent

  datatype Header = Header(ttl: Byte, hopcnt: Byte)

  /** The message is not to travel on over mesh interfaces. */
  predicate LastHop(h: Header) {
    h.ttl < 2 || 255 < h.hopcnt + h.ttl
  }

  /** The header a forwarded copy carries. */
  function Treated(h: Header): (r: Header)
    ensures r.ttl + r.hopcnt == h.ttl + h.hopcnt
    ensures h.ttl >= 1 ==> r.ttl >= 1
    ensures if LastHop(h) then r == h else r.hopcnt == h.hopcnt + 1
  {
    if LastHop(h) then h else Header(h.ttl - 1, h.hopcnt + 1)
  }

  /** Whether a copy that came in on interface `inIf` goes out on interface `k`. */
  predicate GoesOut(modes: seq<Mode>, inIf: nat, lastHop: bool, k: nat) {
    && k < |modes|
    && modes[k] != Silent
    && !(k == inIf && modes[k] == Ether)
    && !(lastHop && modes[k] != Ether)
  }

  /** Where a copy goes, by the mode of the interface: over a mesh as long as the message may travel on and its
      header is plausible, over an ether only away from where it came, and never over a silent interface. */
  lemma OutgoingByMode(modes: seq<Mode>, inIf: nat, h: Header, k: nat)
    requires k < |modes|
    ensures GoesOut(modes, inIf, LastHop(h), k) <==>
              match modes[k]
              case Mesh => 2 <= h.ttl && h.ttl + h.hopcnt <= 255
              case Ether => k != inIf
              case Silent => false
  {
  }

  /** What the duplicate check does with a node's entry for the originator, and whether it
      reports a duplicate. */
  function Check(e: Option<Entry>, s: Seq16): (Option<Entry>, bool) {
    match e
    case None => (Some(Created(s)), false)
    case Some(entry) => (Some(Step(entry, s).0), Step(entry, s).1)
  }

  /** A node with its interfaces, neighbourhood and duplicate set. */
  class Node {
    const modes: seq<Mode>
    const duplicates: Table
    var symmetric: map<Address, bool>
    var selectors: set<Address>
    var isHead: nat

    constructor (modes: seq<Mode>)
      ensures this.modes == modes && fresh(duplicates) && duplicates.Valid() && duplicates.Contents() == map[]
      ensures symmetric == map[] && selectors == {} && isHead == 0
    {
      this.modes := modes;
      duplicates := new Table();
      symmetric, selectors, isHead := map[], {}, 0;
    }

    /** The sender is a symmetric neighbour, and this node relays at all: some neighbour
        selected it or it is a cluster head. */
    predicate Relays(from: Address)
      reads this
    {
      from in symmetric && symmetric[from] && (selectors != {} || isHead != 0)
    }

    /** The duplicate entry held for an originator, if any. */
    ghost function Known(originator: Address): Option<Entry>
      reads this, duplicates, duplicates.entries.Values
    {
      if originator in duplicates.Contents() then Some(duplicates.Contents()[originator]) else None
    }

    /** `olsr_forward_message`: whether the message is forwarded, the header it then carries
        and the interfaces it goes out on. A copy larger than the whole buffer of an interface is
        dropped; a smaller one goes out, after the buffer is emptied if need be. */
    method Forward(originator: Address, s: Seq16, h: Header, inIf: nat, from: Address, until: nat,
                   size: nat, capacity: seq<nat>)
      returns (forwarded: bool, header: Header, outgoing: seq<nat>)
      requires duplicates.Valid() && |capacity| == |modes|
      modifies duplicates, duplicates.entries.Values
      ensures duplicates.Valid()
      ensures forwarded == (old(Relays(from)) && !Check(old(Known(originator)), s).1)
      ensures Known(originator) == if old(Relays(from)) then Check(old(Known(originator)), s).0
                                   else old(Known(originator))
      ensures forall a :: a != originator ==> Known(a) == old(Known(a))
      ensures header == if forwarded then Treated(h) else h
      ensures forall k: nat :: k in outgoing <==> forwarded && GoesOut(modes, inIf, LastHop(h), k) && size <= capacity[k]
      ensures forwarded ==> from in old(symmetric) && old(symmetric)[from] && (old(selectors) != {} || old(isHead) != 0)
      ensures from in old(symmetric) && old(symmetric)[from] && old(Known(originator)).None? ==>
                (forwarded <==> old(selectors) != {} || old(isHead) != 0)
      ensures forall i, j :: 0 <= i < j < |outgoing| ==> outgoing[i] < outgoing[j]
    {
      var lastHop := h.ttl < 2 || 255 < h.hopcnt + h.ttl;
      header, outgoing := h, [];
      if from !in symmetric {
        return false, h, [];
      }
      if !symmetric[from] {
        return false, h, [];
      }
      if selectors == {} {
        if isHead == 0 {
          return false, h, [];
        }
      }
      var duplicate := duplicates.IsDuplicate(originator, s, until);
      if duplicate {
        return false, h, [];
      }
      if !lastHop {
        header := Header(h.ttl - 1, h.hopcnt + 1);
      }
      var k: nat := 0;
      while k < |modes|
        invariant 0 <= k <= |modes|
        invariant forall i: nat :: i in outgoing <==> i < k && GoesOut(modes, inIf, LastHop(h), i) && size <= capacity[i]
        invariant forall i :: 0 <= i < |outgoing| ==> outgoing[i] < k
        invariant forall i, j :: 0 <= i < j < |outgoing| ==> outgoing[i] < outgoing[j]
      {
        if modes[k] != Silent && !(k == inIf && modes[k] == Ether) && !(lastHop && modes[k] != Ether) {
          if size <= capacity[k] {
            outgoing := outgoing + [k];
          }
        }
        k := k + 1;
      }
      return true, header, outgoing;
    }
  }

  // ---------------------------------------------------------------- the network

  /** One transmitted copy of the message on its way to `dst`, arriving on its interface
      `inIf`. */
  datatype Copy = Copy(dst: nat, inIf: nat, header: Header)

  /** Interface modes of every node, and who hears what a node sends on an interface, as
      (node, receiving interface) pairs. `fanout` bounds the copies that one forwarding puts on the
      air, including any that the link layer duplicates. */
  datatype Topology = Topology(modes: seq<seq<Mode>>, hears: map<(nat, nat), set<(nat, nat)>>, fanout: nat)

  /** For one fixed originator: each node's duplicate entry, if any, and the copies in flight. */
  datatype Net = Net(entries: seq<Option<Entry>>, inflight: seq<Copy>)

  /** One delivery: which copy arrives, whether the receiver relays for its sender, and the
      copies that actually get through if the receiver forwards it (any may be lost). */
  datatype Delivery = Delivery(copy: nat, relays: bool, sent: seq<Copy>)

  predicate Deliverable(net: Net, d: Delivery) {
    d.copy < |net.inflight| && net.inflight[d.copy].dst < |net.entries|
  }

  predicate Forwards(net: Net, s: Seq16, d: Delivery)
    requires Deliverable(net, d)
  {
    d.relays && !Check(net.entries[net.inflight[d.copy].dst], s).1
  }

  /** A copy that node `u` sends when it forwards `c`. */
  ghost predicate SentBy(topo: Topology, u: nat, c: Copy, o: Copy) {
    && u < |topo.modes|
    && o.header == Treated(c.header)
    && exists k: nat :: GoesOut(topo.modes[u], c.inIf, LastHop(c.header), k)
                     && (u, k) in topo.hears && (o.dst, o.inIf) in topo.hears[(u, k)]
  }

  ghost predicate Legal(topo: Topology, net: Net, d: Delivery) {
    && Deliverable(net, d)
    && |d.sent| <= topo.fanout
    && forall o :: o in d.sent ==> SentBy(topo, net.inflight[d.copy].dst, net.inflight[d.copy], o)
  }

  function Deliver(net: Net, s: Seq16, d: Delivery): Net
    requires Deliverable(net, d)
  {
    var v := net.inflight[d.copy].dst;
    var rest := net.inflight[..d.copy] + net.inflight[d.copy + 1..];
    Net(if d.relays then net.entries[v := Check(net.entries[v], s).0] else net.entries,
        if Forwards(net, s, d) then rest + d.sent else rest)
  }

  /** `ds` is a possible course of events from `net` on, copies arriving in any order. */
  ghost predicate Run(topo: Topology, net: Net, s: Seq16, ds: seq<Delivery>)
    decreases |ds|
  {
    ds == [] || (Legal(topo, net, ds[0]) && Run(topo, Deliver(net, s, ds[0]), s, ds[1..]))
  }

  ghost function End(topo: Topology, net: Net, s: Seq16, ds: seq<Delivery>): Net
    requires Run(topo, net, s, ds)
    decreases |ds|
  {
    if ds == [] then net else End(topo, Deliver(net, s, ds[0]), s, ds[1..])
  }

  /** How often node `v` forwards the message along the run. */
  ghost function ForwardCount(topo: Topology, net: Net, s: Seq16, ds: seq<Delivery>, v: nat): nat
    requires Run(topo, net, s, ds)
    decreases |ds|
  {
    if ds == [] then 0
    else (if net.inflight[ds[0].copy].dst == v && Forwards(net, s, ds[0]) then 1 else 0)
         + ForwardCount(topo, Deliver(net, s, ds[0]), s, ds[1..], v)
  }

  /** How often a node with this duplicate entry may still forward the message. */
  function Budget(e: Option<Entry>, s: Seq16): nat {
    match e
    case None => 2
    case Some(entry) =>
      var diff := SeqnoDiff(s, entry.seqnr);
      if -31 <= diff <= 0 && Bit(entry.bitmap, -diff) then 0 else 1
  }

  /** A node never gains budget from the message it is being flooded with, not even when the
      repeated message makes it believe the originator restarted; forwarding costs one. */
  lemma BudgetDrops(e: Option<Entry>, s: Seq16)
    ensures Budget(Check(e, s).0, s) + (if Check(e, s).1 then 0 else 1) <= Budget(e, s)
  {
    match e
    case None =>
    case Some(entry) =>
      var diff := SeqnoDiff(s, entry.seqnr);
      if diff < -31 {
        BitOfZero(0);
      } else if diff <= 0 {
        BitAfterSet(entry.bitmap, -diff, -diff);
      } else if diff < 32 {
        BitAfterSet(ShiftLeft(entry.bitmap, diff), 0, 0);
      } else {
        BitAfterSet(0, 0, 0);
      }
  }

  function TotalBudget(entries: seq<Option<Entry>>, s: Seq16): nat {
    if entries == [] then 0 else Budget(entries[0], s) + TotalBudget(entries[1..], s)
  }

  lemma {:induction false} TotalBudgetUpdate(entries: seq<Option<Entry>>, s: Seq16, v: nat, e: Option<Entry>)
    requires v < |entries|
    ensures TotalBudget(entries[v := e], s) + Budget(entries[v], s) == TotalBudget(entries, s) + Budget(e, s)
  {
    if v == 0 {
      assert entries[v := e][1..] == entries[1..];
    } else {
      assert entries[v := e][1..] == entries[1..][v - 1 := e];
      TotalBudgetUpdate(entries[1..], s, v - 1, e);
    }
  }

  /** Copies in flight plus the copies that could still be made. */
  function Potential(topo: Topology, net: Net, s: Seq16): nat {
    |net.inflight| + topo.fanout * TotalBudget(net.entries, s)
  }

  lemma DeliveryCost(net: Net, s: Seq16, d: Delivery, v: nat)
    requires Deliverable(net, d) && v < |net.entries|
    ensures Budget(Deliver(net, s, d).entries[v], s)
            + (if net.inflight[d.copy].dst == v && Forwards(net, s, d) then 1 else 0) <= Budget(net.entries[v], s)
  {
    BudgetDrops(net.entries[v], s);
  }

  lemma TotalBudgetDrops(net: Net, s: Seq16, d: Delivery)
    requires Deliverable(net, d)
    ensures TotalBudget(Deliver(net, s, d).entries, s) + (if Forwards(net, s, d) then 1 else 0)
            <= TotalBudget(net.entries, s)
  {
    var v := net.inflight[d.copy].dst;
    DeliveryCost(net, s, d, v);
    TotalBudgetUpdate(net.entries, s, v, Check(net.entries[v], s).0);
  }

  lemma PotentialDrops(topo: Topology, net: Net, s: Seq16, d: Delivery)
    requires Legal(topo, net, d)
    ensures Potential(topo, Deliver(net, s, d), s) < Potential(topo, net, s)
  {
    TotalBudgetDrops(net, s, d);
    CopiesAfterDelivery(net, s, d);
    Scaled(topo.fanout, TotalBudget(Deliver(net, s, d).entries, s), TotalBudget(net.entries, s));
  }

  lemma CopiesAfterDelivery(net: Net, s: Seq16, d: Delivery)
    requires Deliverable(net, d)
    ensures |Deliver(net, s, d).inflight| == |net.inflight| - 1 + if Forwards(net, s, d) then |d.sent| else 0
  {
  }

  lemma Scaled(f: nat, a: nat, b: nat)
    requires a <= b
    ensures f * a <= f * b
    ensures a < b ==> f * a + f <= f * b
  {
    if a < b {
      assert f * (a + 1) <= f * b;
    }
  }

  /** Flooding terminates: however copies are ordered, lost or looped back, no run is longer
      than the copies in flight at its start plus `fanout` for every forwarding still
      budgeted. The time-to-live plays no part in this bound. */
  lemma {:induction false} FloodTerminates(topo: Topology, net: Net, s: Seq16, ds: seq<Delivery>)
    requires Run(topo, net, s, ds)
    ensures |ds| + Potential(topo, End(topo, net, s, ds), s) <= Potential(topo, net, s)
    decreases |ds|
  {
    if ds != [] {
      PotentialDrops(topo, net, s, ds[0]);
      FloodTerminates(topo, Deliver(net, s, ds[0]), s, ds[1..]);
    }
  }

  /** Every node forwards the message at most once if it already knew the originator and at
      most twice otherwise. */
  lemma {:induction false} ForwardsAtMostTwice(topo: Topology, net: Net, s: Seq16, ds: seq<Delivery>, v: nat)
    requires Run(topo, net, s, ds) && v < |net.entries|
    ensures ForwardCount(topo, net, s, ds, v) <= Budget(net.entries[v], s)
    ensures ForwardCount(topo, net, s, ds, v) <= if net.entries[v].None? then 2 else 1
    decreases |ds|
  {
    if ds != [] {
      DeliveryCost(net, s, ds[0], v);
      ForwardsAtMostTwice(topo, Deliver(net, s, ds[0]), s, ds[1..], v);
    }
  }

  /** Every copy on the air carries the same sum of time-to-live and hop count, so the hop
      count stays a byte and below the sum. */
  ghost predicate HeadersSumTo(net: Net, sum: nat) {
    forall c :: c in net.inflight ==> c.header.ttl + c.header.hopcnt == sum && c.header.ttl >= 1
  }

  lemma {:induction false} HeaderSumConserved(topo: Topology, net: Net, s: Seq16, ds: seq<Delivery>, sum: nat)
    requires Run(topo, net, s, ds) && HeadersSumTo(net, sum)
    ensures HeadersSumTo(End(topo, net, s, ds), sum)
    decreases |ds|
  {
    if ds != [] {
      var next := Deliver(net, s, ds[0]);
      forall c | c in next.inflight
        ensures c.header.ttl + c.header.hopcnt == sum && c.header.ttl >= 1
      {
        if c !in net.inflight {
          assert c in ds[0].sent;
          assert net.inflight[ds[0].copy] in net.inflight;
        }
      }
      HeaderSumConserved(topo, next, s, ds[1..], sum);
    }
  }

  // ---------------------------------------------------------------- how far a message travels

  /** A node on a path, the interface it sends on, and the interface on which the next one receives. */
  datatype Hop = Hop(node: nat, outIf: nat, nextIf: nat)

  /** The nodes of the path are distinct and do not know the originator yet, each one sends over a mesh interface, and
      the next one, or `last` in the end, hears it. */
  ghost predicate Path(topo: Topology, net: Net, path: seq<Hop>, last: nat) {
    && (forall i, j :: 0 <= i < j < |path| ==> path[i].node != path[j].node)
    && forall i :: 0 <= i < |path| ==> HopAt(topo, net, path, last, i)
  }

  ghost predicate HopAt(topo: Topology, net: Net, path: seq<Hop>, last: nat, i: nat)
    requires i < |path|
  {
    var u, k := path[i].node, path[i].outIf;
    && u < |topo.modes| && u < |net.entries| && net.entries[u] == None
    && k < |topo.modes[u]| && topo.modes[u][k] == Mesh
    && (u, k) in topo.hears && (if i + 1 < |path| then path[i + 1].node else last, path[i].nextIf) in topo.hears[(u, k)]
  }

  /** The copy that the last node of a path can get of `c`. */
  function Travelled(c: Copy, path: seq<Hop>, last: nat): Copy
    requires |path| < c.header.ttl && c.header.ttl + c.header.hopcnt <= 255
  {
    if path == [] then c
    else Copy(last, path[|path| - 1].nextIf, Header(c.header.ttl - |path|, c.header.hopcnt + |path|))
  }

  /** A message whose time to live exceeds the length of a path of relays over mesh interfaces can travel to its end:
      there is a run after which a copy is on its way to the last node, with one hop counted for each relay. */
  lemma {:induction false} MessageTravels(topo: Topology, net: Net, s: Seq16, c: Copy, path: seq<Hop>, last: nat)
    returns (ds: seq<Delivery>)
    requires Path(topo, net, path, last) && topo.fanout >= 1
    requires c in net.inflight && (path != [] ==> c.dst == path[0].node)
    requires |path| < c.header.ttl && c.header.ttl + c.header.hopcnt <= 255
    ensures Run(topo, net, s, ds) && |ds| == |path|
    ensures Travelled(c, path, last) in End(topo, net, s, ds).inflight
    decreases |path|
  {
    ds := [];
    if path != [] {
      var k :| 0 <= k < |net.inflight| && net.inflight[k] == c;
      var to := if |path| > 1 then path[1].node else last;
      var o := Copy(to, path[0].nextIf, Treated(c.header));
      var d := Delivery(k, true, [o]);
      FirstHop(topo, net, s, c, path, last, d, o);
      TravelledNext(c, o, path, last);
      var rest := MessageTravels(topo, Deliver(net, s, d), s, o, path[1..], last);
      ds := [d] + rest;
      RunFirst(topo, net, s, d, rest);
    }
  }

  lemma RunFirst(topo: Topology, net: Net, s: Seq16, d: Delivery, rest: seq<Delivery>)
    requires Legal(topo, net, d) && Run(topo, Deliver(net, s, d), s, rest)
    ensures Run(topo, net, s, [d] + rest) && End(topo, net, s, [d] + rest) == End(topo, Deliver(net, s, d), s, rest)
  {
    assert ([d] + rest)[1..] == rest;
  }

  lemma TravelledNext(c: Copy, o: Copy, path: seq<Hop>, last: nat)
    requires path != [] && |path| < c.header.ttl && c.header.ttl + c.header.hopcnt <= 255
    requires o == Copy(if |path| > 1 then path[1].node else last, path[0].nextIf, Treated(c.header))
    ensures o.header == Header(c.header.ttl - 1, c.header.hopcnt + 1)
    ensures Travelled(o, path[1..], last) == Travelled(c, path, last)
  {
    assert |path| > 1 ==> path[1..][|path| - 2] == path[|path| - 1];
  }

  lemma FirstHop(topo: Topology, net: Net, s: Seq16, c: Copy, path: seq<Hop>, last: nat, d: Delivery, o: Copy)
    requires Path(topo, net, path, last) && topo.fanout >= 1 && path != [] && c.dst == path[0].node
    requires d == Delivery(d.copy, true, [o]) && d.copy < |net.inflight| && net.inflight[d.copy] == c
    requires o == Copy(if |path| > 1 then path[1].node else last, path[0].nextIf, Treated(c.header))
    requires 1 < c.header.ttl && c.header.ttl + c.header.hopcnt <= 255
    ensures Legal(topo, net, d) && o in Deliver(net, s, d).inflight
    ensures Path(topo, Deliver(net, s, d), path[1..], last)
  {
    var u := path[0].node;
    assert HopAt(topo, net, path, last, 0);
    OutgoingByMode(topo.modes[u], c.inIf, c.header, path[0].outIf);
    assert SentBy(topo, u, c, o);
    var next, tail := Deliver(net, s, d), path[1..];
    assert next.inflight[|next.inflight| - 1] == o;
    forall i | 0 <= i < |tail| ensures HopAt(topo, next, tail, last, i) {
      assert HopAt(topo, net, path, last, i + 1) && tail[i] == path[i + 1];
    }
  }
}

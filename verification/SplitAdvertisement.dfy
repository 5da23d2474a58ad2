/** Sender and receiver together: what the fragments of one advertisement do to the edges a
    receiver holds. */
module SplitAdvertisement {
  import opened Basics
  import opened Borders
  import opened SequenceNumbers
  import opened OutputBuffer
  import opened TopologyControl
  import opened TopologySync

  function First(m: LqTc): Address
    requires m.neighbours != []
  {
    m.neighbours[0]
  }

  function Last(m: LqTc): Address
    requires m.neighbours != []
  {
    m.neighbours[|m.neighbours| - 1]
  }

  // ---------------------------------------------------------------- positions of fragments in the list

  lemma {:induction false} GatherPrefix(msgs: seq<LqTc>, k: nat)
    requires k <= |msgs|
    ensures Gather(msgs[..k]) <= Gather(msgs)
    decreases |msgs|
  {
    if k < |msgs| {
      assert msgs[..|msgs| - 1][..k] == msgs[..k];
      GatherPrefix(msgs[..|msgs| - 1], k);
    } else {
      assert msgs[..k] == msgs;
    }
  }

  lemma GatherShorter(msgs: seq<LqTc>, j: nat, k: nat)
    requires j <= k <= |msgs|
    ensures |Gather(msgs[..j])| <= |Gather(msgs[..k])|
  {
    assert msgs[..k][..j] == msgs[..j];
    GatherPrefix(msgs[..k], j);
  }

  /** Fragment `k` is the stretch of the list behind the earlier fragments. */
  lemma FragmentPosition(msgs: seq<LqTc>, k: nat)
    requires k < |msgs|
    ensures Gather(msgs[..k + 1]) == Gather(msgs[..k]) + msgs[k].neighbours
    ensures Gather(msgs[..k + 1]) <= Gather(msgs)
  {
    assert msgs[..k + 1][..k] == msgs[..k];
    GatherPrefix(msgs, k + 1);
  }

  lemma ListedAt(msgs: seq<LqTc>, i: nat, k: nat) returns (at: nat)
    requires i < |msgs| && k < |msgs[i].neighbours|
    ensures at == |Gather(msgs[..i])| + k < |Gather(msgs)| && Gather(msgs)[at] == msgs[i].neighbours[k]
  {
    FragmentPosition(msgs, i);
    at := |Gather(msgs[..i])| + k;
    assert Gather(msgs)[at] == Gather(msgs[..i + 1])[at];
  }

  /** Fragments whose borders can be taken at face value. */
  predicate Consistent(msgs: seq<LqTc>, ipsize: nat) {
    && msgs != []
    && (forall i :: 0 <= i < |msgs| ==> msgs[i].neighbours != [] && Addresses(msgs[i].neighbours, ipsize))
    && msgs[0].lower == NO_BORDER && msgs[|msgs| - 1].upper == NO_BORDER
    && forall i :: 0 <= i < |msgs| - 1 ==> Meet(msgs[i], msgs[i + 1])
  }

  predicate Meet(m: LqTc, next: LqTc) {
    && m.neighbours != [] && next.neighbours != [] && |Last(m)| == |First(next)|
    && 1 <= m.upper <= 128 && m.upper == next.lower
    && TopDifference(Last(m), First(next), m.upper - 1)
  }

  lemma {:induction false} FragmentAddresses(msgs: seq<LqTc>, ipsize: nat, i: nat)
    requires Addresses(Gather(msgs), ipsize) && i < |msgs|
    ensures Addresses(msgs[i].neighbours, ipsize)
  {
    var n := |msgs| - 1;
    var before, last := Gather(msgs[..n]), msgs[n].neighbours;
    assert forall k :: 0 <= k < |before| ==> (before + last)[k] == before[k];
    assert forall k :: 0 <= k < |last| ==> (before + last)[|before| + k] == last[k];
    if i < n {
      FragmentAddresses(msgs[..n], ipsize, i);
    }
  }

  lemma NeighboursInList(list: seq<Address>, msgs: seq<LqTc>, i: nat) returns (at: nat)
    requires Gather(msgs) == list && i < |msgs| - 1
    requires msgs[i].neighbours != [] && msgs[i + 1].neighbours != []
    ensures 0 < at < |list| && Last(msgs[i]) == list[at - 1] && First(msgs[i + 1]) == list[at]
    ensures at == |Gather(msgs[..i + 1])|
  {
    FragmentPosition(msgs, i);
    FragmentPosition(msgs, i + 1);
    at := |Gather(msgs[..i + 1])|;
    assert Gather(msgs[..i + 2])[at - 1] == Gather(msgs[..i + 1])[at - 1] == Last(msgs[i]);
    assert Gather(msgs[..i + 2])[at] == First(msgs[i + 1]);
  }

  lemma FragmentsConsistent(list: seq<Address>, msgs: seq<LqTc>, ipsize: nat)
    requires Fragments(list, msgs, ipsize) && Addresses(list, ipsize) && NoRepeats(list) && list != []
    ensures Consistent(msgs, ipsize)
  {
    if |msgs| == 1 {
      assert msgs[..0] == [] && Gather(msgs) == [] + msgs[0].neighbours;
    }
    forall i | 0 <= i < |msgs|
      ensures msgs[i].neighbours != [] && Addresses(msgs[i].neighbours, ipsize)
    {
      FragmentAddresses(msgs, ipsize, i);
    }
    forall i | 0 <= i < |msgs| - 1
      ensures Meet(msgs[i], msgs[i + 1])
    {
      assert Joined(msgs[i], msgs[i + 1]);
      var at := NeighboursInList(list, msgs, i);
    }
  }

  // ---------------------------------------------------------------- the borders between fragments

  lemma MeetUsable(m: LqTc, next: LqTc)
    requires Meet(m, next)
    ensures FlagUsable(Last(m), m.upper) && FlagUsable(First(next), next.lower)
    ensures Border(Last(m), m.upper, 255) == Border(First(next), next.lower, 0)
  {
    CutAgrees(Last(m), First(next), m.upper - 1);
  }

  lemma ConsistentUsable(msgs: seq<LqTc>, ipsize: nat, i: nat)
    requires Consistent(msgs, ipsize) && i < |msgs|
    ensures BordersUsable(msgs[i])
  {
    if i > 0 {
      assert Meet(msgs[i - 1], msgs[i]);
      MeetUsable(msgs[i - 1], msgs[i]);
    }
    if i < |msgs| - 1 {
      MeetUsable(msgs[i], msgs[i + 1]);
    }
  }

  // ---------------------------------------------------------------- what a receiver sees

  /** A fragment with its border flags resolved to addresses. */
  datatype Piece = Piece(neighbours: seq<Address>, lower: Address, upper: Address)

  predicate Usable(msgs: seq<LqTc>) {
    forall i :: 0 <= i < |msgs| ==> msgs[i].neighbours != [] && BordersUsable(msgs[i])
  }

  function PieceOf(m: LqTc): Piece
    requires m.neighbours != [] && BordersUsable(m)
  {
    Piece(m.neighbours, LowerBorder(m), UpperBorder(m))
  }

  function Pieces(msgs: seq<LqTc>): (ps: seq<Piece>)
    requires Usable(msgs)
    ensures |ps| == |msgs|
  {
    if msgs == [] then [] else Pieces(msgs[..|msgs| - 1]) + [PieceOf(msgs[|msgs| - 1])]
  }

  /** The edges after a sequence of messages. */
  function ProcessAll(rank: Rank, edges: Edges, msgs: seq<LqTc>, ansn: Seq16): Edges
    requires Usable(msgs)
  {
    if msgs == [] then edges
    else Process(rank, ProcessAll(rank, edges, msgs[..|msgs| - 1], ansn), msgs[|msgs| - 1], ansn)
  }

  function ReceiveAll(rank: Rank, edges: Edges, ps: seq<Piece>, ansn: Seq16): Edges {
    if ps == [] then edges
    else
      var p := ps[|ps| - 1];
      Revoked(rank, Confirmed(ReceiveAll(rank, edges, ps[..|ps| - 1], ansn), p.neighbours, ansn), ansn, p.lower, p.upper)
  }

  function Listed(ps: seq<Piece>): seq<Address> {
    if ps == [] then [] else Listed(ps[..|ps| - 1]) + ps[|ps| - 1].neighbours
  }

  lemma {:induction false} PiecesFaithful(rank: Rank, edges: Edges, msgs: seq<LqTc>, ansn: Seq16)
    requires Usable(msgs)
    ensures ProcessAll(rank, edges, msgs, ansn) == ReceiveAll(rank, edges, Pieces(msgs), ansn)
    ensures Listed(Pieces(msgs)) == Gather(msgs)
  {
    if msgs != [] {
      PiecesFaithful(rank, edges, msgs[..|msgs| - 1], ansn);
      assert Pieces(msgs)[..|msgs| - 1] == Pieces(msgs[..|msgs| - 1]);
    }
  }

  lemma {:induction false} PieceAt(msgs: seq<LqTc>, i: nat)
    requires Usable(msgs) && i < |msgs|
    ensures Pieces(msgs)[i] == PieceOf(msgs[i])
  {
    if i < |msgs| - 1 {
      PieceAt(msgs[..|msgs| - 1], i);
    }
  }

  /** Every edge known so far stems from an older advertisement. */
  predicate AllOlder(edges: Edges, ansn: Seq16) {
    forall x :: x in edges ==> Newer(ansn, edges[x])
  }

  predicate Untouched(rank: Rank, ps: seq<Piece>, x: Address) {
    forall i :: 0 <= i < |ps| ==> !Within(rank, x, ps[i].lower, ps[i].upper)
  }

  /** One piece: its neighbours are confirmed, and of the others an edge goes if it lies between the
      borders and is older. */
  lemma OnePiece(rank: Rank, edges: Edges, p: Piece, ansn: Seq16, x: Address)
    ensures var now := Revoked(rank, Confirmed(edges, p.neighbours, ansn), ansn, p.lower, p.upper);
      && (x in now <==> x in p.neighbours || (x in edges && !(Within(rank, x, p.lower, p.upper) && Newer(ansn, edges[x]))))
      && (x in now ==> now[x] == if x in p.neighbours then ansn else edges[x])
  {
  }

  /** A receiver ends up with what the pieces list, and of its older edges those that lay
      outside all their intervals. */
  lemma {:induction false} AfterPieces(rank: Rank, edges: Edges, ps: seq<Piece>, ansn: Seq16, x: Address)
    requires AllOlder(edges, ansn)
    ensures var now := ReceiveAll(rank, edges, ps, ansn);
      && (x in now <==> x in Listed(ps) || (x in edges && Untouched(rank, ps, x)))
      && (x in now ==> now[x] == if x in Listed(ps) then ansn else edges[x])
  {
    if ps != [] {
      var n := |ps| - 1;
      AfterPieces(rank, edges, ps[..n], ansn, x);
      OnePiece(rank, ReceiveAll(rank, edges, ps[..n], ansn), ps[n], ansn, x);
      UntouchedNext(rank, ps, x);
    }
  }

  lemma UntouchedNext(rank: Rank, ps: seq<Piece>, x: Address)
    requires ps != []
    ensures var n := |ps| - 1;
      Untouched(rank, ps, x) <==> Untouched(rank, ps[..n], x) && !Within(rank, x, ps[n].lower, ps[n].upper)
  {
    var n := |ps| - 1;
    assert forall i :: 0 <= i < n ==> ps[..n][i] == ps[i];
  }

  // ---------------------------------------------------------------- a complete advertisement

  /** The pieces lie end to end from the first to the last address. */
  predicate Tiling(ps: seq<Piece>, ipsize: nat) {
    && ps != []
    && ps[0].lower == Fill(ipsize, 0) && ps[|ps| - 1].upper == Fill(ipsize, 255)
    && EndToEnd(ps)
    && forall i :: 0 <= i < |ps| ==> |ps[i].upper| == ipsize
  }

  predicate EndToEnd(ps: seq<Piece>) {
    forall i :: 0 < i < |ps| ==> ps[i - 1].upper == ps[i].lower
  }

  /** All-zero addresses rank lowest and all-one addresses highest. */
  ghost predicate Spans(rank: Rank, ipsize: nat) {
    forall a: Address :: |a| == ipsize ==> rank(Fill(ipsize, 0)) <= rank(a) <= rank(Fill(ipsize, 255))
  }

  lemma OrdersSpan(o: Order, ipsize: nat)
    ensures Spans(RankOf(o), ipsize)
  {
    forall a: Address | |a| == ipsize
      ensures RankOf(o)(Fill(ipsize, 0)) <= RankOf(o)(a) <= RankOf(o)(Fill(ipsize, 255))
    {
      KeyOfFill(o, a);
    }
  }

  /** Whatever the order of the list and of the receiver, intervals that lie end to end reach
      every address between their two ends. */
  lemma {:induction false} IntervalsCover(rank: Rank, ps: seq<Piece>, x: Address)
    requires ps != [] && EndToEnd(ps)
    requires rank(ps[0].lower) <= rank(x) < rank(ps[|ps| - 1].upper)
    ensures !Untouched(rank, ps, x)
  {
    var n := |ps| - 1;
    if rank(x) < rank(ps[n].lower) {
      IntervalsCover(rank, ps[..n], x);
      var i :| 0 <= i < n && Within(rank, x, ps[..n][i].lower, ps[..n][i].upper);
      assert Within(rank, x, ps[i].lower, ps[i].upper);
    } else {
      assert Within(rank, x, ps[n].lower, ps[n].upper);
    }
  }

  /** What is left of older edges after a complete advertisement: only the last address of the
      space, because the upper border itself is never reached. */
  function Leftover(edges: Edges, list: seq<Address>, ipsize: nat): Edges {
    map x | x in edges && x == Fill(ipsize, 255) && x !in list :: edges[x]
  }

  lemma TilingMember(rank: Rank, edges: Edges, ps: seq<Piece>, ipsize: nat, ansn: Seq16, x: Address)
    requires Tiling(ps, ipsize) && Distinguishes(rank, ipsize) && Spans(rank, ipsize)
    requires AllOlder(edges, ansn) && (x in edges ==> |x| == ipsize)
    ensures var now := ReceiveAll(rank, edges, ps, ansn);
      && (x in now <==> x in Listed(ps) || (x in edges && x == Fill(ipsize, 255)))
      && (x in now ==> now[x] == if x in Listed(ps) then ansn else edges[x])
  {
    AfterPieces(rank, edges, ps, ansn, x);
    if x in edges && x != Fill(ipsize, 255) {
      IntervalsCover(rank, ps, x);
    }
  }

  lemma TilingReplacesEdges(rank: Rank, edges: Edges, ps: seq<Piece>, ipsize: nat, ansn: Seq16)
    requires Tiling(ps, ipsize) && Distinguishes(rank, ipsize) && Spans(rank, ipsize)
    requires AllOlder(edges, ansn) && forall x :: x in edges ==> |x| == ipsize
    ensures ReceiveAll(rank, edges, ps, ansn) == (map x | x in Listed(ps) :: ansn) + Leftover(edges, Listed(ps), ipsize)
  {
    var now := ReceiveAll(rank, edges, ps, ansn);
    var goal := (map x | x in Listed(ps) :: ansn) + Leftover(edges, Listed(ps), ipsize);
    forall x
      ensures x in now <==> x in goal
      ensures x in now ==> now[x] == goal[x]
    {
      TilingMember(rank, edges, ps, ipsize, ansn, x);
    }
  }

  lemma ConsistentTiling(msgs: seq<LqTc>, ipsize: nat)
    requires Consistent(msgs, ipsize)
    ensures Usable(msgs) && Tiling(Pieces(msgs), ipsize)
  {
    forall i | 0 <= i < |msgs|
      ensures msgs[i].neighbours != [] && BordersUsable(msgs[i])
    {
      ConsistentUsable(msgs, ipsize, i);
    }
    var ps := Pieces(msgs);
    forall i | 0 <= i < |ps|
      ensures |ps[i].upper| == ipsize
      ensures i > 0 ==> ps[i - 1].upper == ps[i].lower
    {
      PieceMeets(msgs, ipsize, i);
    }
    PieceAt(msgs, 0);
    PieceAt(msgs, |msgs| - 1);
  }

  lemma PieceMeets(msgs: seq<LqTc>, ipsize: nat, i: nat)
    requires Consistent(msgs, ipsize) && Usable(msgs) && i < |msgs|
    ensures |Pieces(msgs)[i].upper| == ipsize
    ensures i > 0 ==> Pieces(msgs)[i - 1].upper == Pieces(msgs)[i].lower
  {
    PieceAt(msgs, i);
    assert |UpperBorder(msgs[i])| == |Last(msgs[i])| == ipsize;
    if i > 0 {
      PieceAt(msgs, i - 1);
      LowerIsUpper(msgs, i);
    }
  }

  /** A complete advertisement replaces the edges: however the list was cut, in whatever order
      it stood and however the receiver compares addresses, afterwards exactly the advertised
      addresses are known, all with the new number. */
  lemma AdvertisementReplacesEdges(rank: Rank, edges: Edges, list: seq<Address>, msgs: seq<LqTc>, ipsize: nat, ansn: Seq16)
    requires Fragments(list, msgs, ipsize) && Addresses(list, ipsize) && NoRepeats(list) && list != []
    requires Distinguishes(rank, ipsize) && Spans(rank, ipsize)
    requires AllOlder(edges, ansn) && forall x :: x in edges ==> |x| == ipsize
    ensures Usable(msgs)
    ensures ProcessAll(rank, edges, msgs, ansn) == (map x | x in list :: ansn) + Leftover(edges, list, ipsize)
  {
    FragmentsConsistent(list, msgs, ipsize);
    ConsistentTiling(msgs, ipsize);
    PiecesFaithful(rank, edges, msgs, ansn);
    TilingReplacesEdges(rank, edges, Pieces(msgs), ipsize, ansn);
  }

  /** The same for the two orders that hosts use. */
  lemma HostReplacesEdges(o: Order, edges: Edges, list: seq<Address>, msgs: seq<LqTc>, ipsize: nat, ansn: Seq16)
    requires Fragments(list, msgs, ipsize) && Addresses(list, ipsize) && NoRepeats(list) && list != []
    requires AllOlder(edges, ansn) && forall x :: x in edges ==> |x| == ipsize
    ensures Usable(msgs)
    ensures ProcessAll(RankOf(o), edges, msgs, ansn) == (map x | x in list :: ansn) + Leftover(edges, list, ipsize)
  {
    OrdersDistinguish(o, ipsize);
    OrdersSpan(o, ipsize);
    AdvertisementReplacesEdges(RankOf(o), edges, list, msgs, ipsize, ansn);
  }

  /** What a receiver holds after a whole advertisement. */
  function Advertisement(edges: Edges, list: seq<Address>, ipsize: nat, ansn: Seq16): Edges {
    if list == [] then map[] else (map x | x in list :: ansn) + Leftover(edges, list, ipsize)
  }

  lemma ProcessNext(rank: Rank, edges: Edges, msgs: seq<LqTc>, k: nat, ansn: Seq16)
    requires Usable(msgs) && k < |msgs|
    ensures Usable(msgs[..k]) && Usable(msgs[..k + 1])
    ensures ProcessAll(rank, edges, msgs[..k + 1], ansn) == Process(rank, ProcessAll(rank, edges, msgs[..k], ansn), msgs[k], ansn)
  {
    assert msgs[..k + 1][..k] == msgs[..k];
  }

  predicate OfSize(msgs: seq<LqTc>, ipsize: nat) {
    forall i :: 0 <= i < |msgs| ==> Addresses(msgs[i].neighbours, ipsize)
  }

  /** A receiver processes the messages one by one. */
  method ReceiveEach(tc: TcEntry, msgs: seq<LqTc>, ansn: Seq16)
    requires tc.Valid() && Usable(msgs) && OfSize(msgs, tc.ipsize)
    modifies tc
    ensures tc.Valid() && tc.edges == ProcessAll(tc.rank, old(tc.edges), msgs, ansn)
  {
    var k := 0;
    while k < |msgs|
      invariant k <= |msgs| && tc.Valid() && Usable(msgs[..k])
      invariant tc.edges == ProcessAll(tc.rank, old(tc.edges), msgs[..k], ansn)
    {
      ProcessNext(tc.rank, old(tc.edges), msgs, k, ansn);
      var _ := tc.Receive(msgs[k], ansn, {});
      k := k + 1;
    }
    assert msgs[..k] == msgs;
  }

  method ReceiveMessages(tc: TcEntry, ghost list: seq<Address>, msgs: seq<LqTc>, ansn: Seq16, ghost o: Order)
    requires tc.Valid() && tc.rank == RankOf(o) && AllOlder(tc.edges, ansn)
    requires Fragments(list, msgs, tc.ipsize) && Addresses(list, tc.ipsize) && NoRepeats(list)
    modifies tc
    ensures tc.Valid() && tc.edges == Advertisement(old(tc.edges), list, tc.ipsize, ansn)
  {
    FragmentsSized(list, msgs, tc.ipsize);
    if msgs[0].neighbours == [] {
      EmptyAdvertisement(list, msgs, tc.ipsize);
      var _ := tc.Receive(msgs[0], ansn, {});
    } else {
      EdgesSized(tc);
      NonEmptyAdvertisement(list, msgs, tc.ipsize);
      HostReplacesEdges(o, tc.edges, list, msgs, tc.ipsize, ansn);
      ReceiveEach(tc, msgs, ansn);
    }
  }

  lemma EdgesSized(tc: TcEntry)
    requires tc.Valid()
    ensures forall x :: x in tc.edges ==> |x| == tc.ipsize
  {
    forall x | x in tc.edges ensures |x| == tc.ipsize {
      var k :| 0 <= k < |tc.walk| && tc.walk[k] == x;
    }
  }

  lemma FragmentsSized(list: seq<Address>, msgs: seq<LqTc>, ipsize: nat)
    requires Fragments(list, msgs, ipsize) && Addresses(list, ipsize)
    ensures OfSize(msgs, ipsize)
  {
    forall i | 0 <= i < |msgs| ensures Addresses(msgs[i].neighbours, ipsize) {
      FragmentAddresses(msgs, ipsize, i);
    }
  }

  lemma EmptyAdvertisement(list: seq<Address>, msgs: seq<LqTc>, ipsize: nat)
    requires Fragments(list, msgs, ipsize) && msgs[0].neighbours == []
    ensures list == [] && msgs[0].lower == msgs[0].upper == NO_BORDER
  {
    assert |msgs| == 1 && msgs[..0] == [];
    assert Gather(msgs) == Gather(msgs[..0]) + msgs[0].neighbours;
  }

  lemma NonEmptyAdvertisement(list: seq<Address>, msgs: seq<LqTc>, ipsize: nat)
    requires Fragments(list, msgs, ipsize) && msgs[0].neighbours != []
    ensures list != []
  {
    FragmentPosition(msgs, 0);
  }

  /** Sender and receiver end to end: the advertised neighbours are collected, written to messages and
      received, and the receiver then holds exactly them and what is left over. */
  method Advertise(o: Order, table: seq<TcNeighbour>, redundancy: nat, ipsize: nat, out: Buffer<LqTc>,
                   tc: TcEntry, ansn: Seq16, ghost receiver: Order) returns (list: seq<Address>)
    requires (ipsize == 4 || ipsize == 16) && TableOf(table, ipsize)
    requires out.Valid() && out.Capacity() >= HeaderSize(ipsize) + EntrySize(ipsize)
    requires tc.Valid() && tc.ipsize == ipsize && tc.rank == RankOf(receiver) && AllOlder(tc.edges, ansn)
    modifies out, tc
    ensures forall x :: x in list <==> exists i :: 0 <= i < |table| && table[i].addr == x && Advertised(table[i], redundancy)
    ensures out.Valid() && tc.Valid() && tc.edges == Advertisement(old(tc.edges), list, ipsize, ansn)
  {
    list := CollectNeighbours(o, table, redundancy, ipsize);
    var msgs := SerializeLqTc(list, ipsize, out);
    ReceiveMessages(tc, list, msgs, ansn, receiver);
  }

  // ---------------------------------------------------------------- sorted lists

  predicate Sorted(o: Order, list: seq<Address>) {
    forall i, j :: 0 <= i < j < |list| ==> Key(o, list[i]) < Key(o, list[j])
  }

  /** A neighbour as the originator sees it; `cost` is that of the best link, if there is one. */
  datatype TcNeighbour = TcNeighbour(addr: Address, sym: bool, isMpr: bool, isSelector: bool, hasLink: bool, cost: nat)

  /** `create_lq_tc` advertises symmetric neighbours with a usable link, depending on the redundancy. */
  predicate Advertised(n: TcNeighbour, redundancy: nat) {
    && n.sym
    && (redundancy == 1 ==> n.isMpr || n.isSelector)
    && (redundancy == 0 ==> n.isSelector)
    && n.hasLink && n.cost < LINK_COST_BROKEN
  }

  /** More redundancy advertises more: from 2 on every symmetric neighbour with a usable link, at 1 without those that
      neither relay for this node nor chose it as relay, and at 0 without the mere relays either. */
  lemma RedundancyNests(n: TcNeighbour, redundancy: nat)
    ensures redundancy >= 2 ==> (Advertised(n, redundancy) <==> n.sym && n.hasLink && n.cost < 4194304)
    ensures Advertised(n, 1) <==> Advertised(n, 2) && (n.isMpr || n.isSelector)
    ensures Advertised(n, 0) <==> Advertised(n, 1) && n.isSelector
  {
  }

  predicate TableOf(table: seq<TcNeighbour>, ipsize: nat) {
    && (forall i :: 0 <= i < |table| ==> |table[i].addr| == ipsize)
    && (forall i, j :: 0 <= i < j < |table| ==> table[i].addr != table[j].addr)
  }

  /** The neighbour list of `create_lq_tc`: the advertised neighbours, each inserted in its place. */
  method CollectNeighbours(o: Order, table: seq<TcNeighbour>, redundancy: nat, ipsize: nat) returns (list: seq<Address>)
    requires TableOf(table, ipsize)
    ensures Sorted(o, list) && Addresses(list, ipsize)
    ensures forall x :: x in list <==> exists i :: 0 <= i < |table| && table[i].addr == x && Advertised(table[i], redundancy)
  {
    list := [];
    OrdersDistinguish(o, ipsize);
    var n := 0;
    while n < |table|
      invariant 0 <= n <= |table| && Ascending(RankOf(o), list) && Addresses(list, ipsize)
      invariant forall x :: x in list <==> exists i :: 0 <= i < n && table[i].addr == x && Advertised(table[i], redundancy)
    {
      if Advertised(table[n], redundancy) {
        var a := table[n].addr;
        var k := Position(RankOf(o), list, a);
        InsertedMembers(list, k, a, ipsize);
        list := list[..k] + [a] + list[k..];
      }
      n := n + 1;
    }
  }

  lemma MeetNotAbove(o: Order, m: LqTc, next: LqTc)
    requires Meet(m, next) && Key(o, Last(m)) < Key(o, First(next))
    ensures FlagUsable(Last(m), m.upper)
    ensures Key(o, Border(Last(m), m.upper, 255)) <= Key(o, First(next))
  {
    MeetUsable(m, next);
    CutNotAbove(o, Last(m), First(next), m.upper - 1);
  }

  /** The border behind fragment `j` is not above any address listed after it. */
  lemma BorderBelowLater(o: Order, msgs: seq<LqTc>, j: nat, at: nat)
    requires j + 1 < |msgs| && Meet(msgs[j], msgs[j + 1]) && BordersUsable(msgs[j])
    requires Sorted(o, Gather(msgs)) && |Gather(msgs[..j + 1])| <= at < |Gather(msgs)|
    ensures Key(o, UpperBorder(msgs[j])) <= Key(o, Gather(msgs)[at])
  {
    var list := Gather(msgs);
    var cut := NeighboursInList(list, msgs, j);
    assert Key(o, list[cut - 1]) < Key(o, list[cut]);
    MeetNotAbove(o, msgs[j], msgs[j + 1]);
    assert cut < at ==> Key(o, list[cut]) < Key(o, list[at]);
  }

  lemma UsablePrefix(msgs: seq<LqTc>, k: nat)
    requires Usable(msgs) && k <= |msgs|
    ensures Usable(msgs[..k])
  {
  }

  /** Of the first `k` intervals none reaches `x` exactly if all their upper borders are at most `x`. */
  lemma UntouchedExactly(o: Order, msgs: seq<LqTc>, ipsize: nat, k: nat, x: Address)
    requires Consistent(msgs, ipsize) && Usable(msgs) && k <= |msgs| && Usable(msgs[..k]) && |x| == ipsize
    ensures Untouched(RankOf(o), Pieces(msgs[..k]), x) <==> forall j :: 0 <= j < k ==> Key(o, UpperBorder(msgs[j])) <= Key(o, x)
  {
    forall j | 0 <= j < k
      ensures Pieces(msgs[..k])[j].upper == UpperBorder(msgs[j])
      ensures Key(o, x) < Key(o, UpperBorder(msgs[j])) ==> !Untouched(RankOf(o), Pieces(msgs[..k]), x)
    {
      PieceAt(msgs[..k], j);
      if Key(o, x) < Key(o, UpperBorder(msgs[j])) {
        ReachedUpTo(o, msgs, ipsize, k, j, x);
      }
    }
  }

  lemma ReachedUpTo(o: Order, msgs: seq<LqTc>, ipsize: nat, k: nat, j: nat, x: Address)
    requires Consistent(msgs, ipsize) && Usable(msgs) && j < k <= |msgs| && Usable(msgs[..k]) && |x| == ipsize
    requires Key(o, x) < Key(o, UpperBorder(msgs[j]))
    ensures !Untouched(RankOf(o), Pieces(msgs[..k]), x)
  {
    var ps, all := Pieces(msgs[..k]), Pieces(msgs);
    ConsistentTiling(msgs, ipsize);
    forall i | 0 <= i < k ensures ps[i] == all[i] {
      PieceAt(msgs[..k], i);
      PieceAt(msgs, i);
    }
    PieceAt(msgs, j);
    KeyOfFill(o, x);
    IntervalsCover(RankOf(o), ps[..j + 1], x);
    var i :| 0 <= i < j + 1 && Within(RankOf(o), x, ps[..j + 1][i].lower, ps[..j + 1][i].upper);
    assert Within(RankOf(o), x, ps[i].lower, ps[i].upper);
  }

  /** Whether an advertised edge known before is still known after `k` fragments, for any order of the
      list and any order of the receiver: it is listed in one of them, or as the receiver compares it
      is not below any of their upper borders. */
  lemma EdgeStaysExactly(o: Order, edges: Edges, list: seq<Address>, msgs: seq<LqTc>, ipsize: nat, ansn: Seq16,
                         k: nat, at: nat)
    requires Fragments(list, msgs, ipsize) && Addresses(list, ipsize) && NoRepeats(list)
    requires AllOlder(edges, ansn) && k <= |msgs| && at < |list| && list[at] in edges
    ensures Usable(msgs) && Usable(msgs[..k])
    ensures list[at] in ProcessAll(RankOf(o), edges, msgs[..k], ansn) <==>
            || at < |Gather(msgs[..k])|
            || forall j :: 0 <= j < k ==> Key(o, UpperBorder(msgs[j])) <= Key(o, list[at])
  {
    FragmentsConsistent(list, msgs, ipsize);
    ConsistentTiling(msgs, ipsize);
    UsablePrefix(msgs, k);
    PiecesFaithful(RankOf(o), edges, msgs[..k], ansn);
    AfterPieces(RankOf(o), edges, Pieces(msgs[..k]), ansn, list[at]);
    UntouchedExactly(o, msgs, ipsize, k, list[at]);
    ListedInPrefix(list, msgs, k, at);
  }

  lemma ListedInPrefix(list: seq<Address>, msgs: seq<LqTc>, k: nat, at: nat)
    requires Gather(msgs) == list && NoRepeats(list) && k <= |msgs| && at < |list|
    ensures list[at] in Gather(msgs[..k]) <==> at < |Gather(msgs[..k])|
  {
    GatherPrefix(msgs, k);
    var front := Gather(msgs[..k]);
    assert forall i :: 0 <= i < |front| ==> front[i] == list[i];
    assert at < |front| ==> front[at] in front;
  }

  /** No advertised neighbour is lost on the way: if both ends order addresses alike, an edge
      known before stays known after every single fragment, even while the fragment that
      lists it is still to come. */
  lemma AdvertisedEdgesStay(o: Order, edges: Edges, list: seq<Address>, msgs: seq<LqTc>, ipsize: nat, ansn: Seq16,
                            k: nat, at: nat)
    requires Fragments(list, msgs, ipsize) && Addresses(list, ipsize) && Sorted(o, list)
    requires AllOlder(edges, ansn) && k <= |msgs| && at < |list| && list[at] in edges
    ensures Usable(msgs[..k])
    ensures list[at] in ProcessAll(RankOf(o), edges, msgs[..k], ansn)
  {
    FragmentsConsistent(list, msgs, ipsize);
    EdgeStaysExactly(o, edges, list, msgs, ipsize, ansn, k, at);
    if |Gather(msgs[..k])| <= at {
      forall j | 0 <= j < k ensures Key(o, UpperBorder(msgs[j])) <= Key(o, list[at]) {
        GatherShorter(msgs, j + 1, k);
        GatherShorter(msgs, k, |msgs|);
        assert msgs[..|msgs|] == msgs;
        BorderBelowLater(o, msgs, j, at);
      }
    }
  }

  /** A list in byte order on its way to a little-endian receiver: after the first fragment, whose border
      is 10.1.0.0, the edge to 11.0.0.0 is gone until the second fragment arrives. */
  lemma EdgeLostBetween()
    ensures var list: seq<Address> := [[10, 0, 0, 1], [10, 1, 0, 0], [11, 0, 0, 0]];
      var msgs := [LqTc(24, NO_BORDER, 17, list[..1]), LqTc(32, 17, NO_BORDER, list[1..])];
      && Sorted(BigEndian, list) && Fragments(list, msgs, 4) && Usable(msgs[..1])
      && list[2] !in ProcessAll(RankOf(LittleEndian), map[list[2] := 0], msgs[..1], 1)
  {
    var a: Address, b: Address, c: Address := [10, 0, 0, 1], [10, 1, 0, 0], [11, 0, 0, 0];
    var m, n := LqTc(24, NO_BORDER, 17, [a]), LqTc(32, 17, NO_BORDER, [b, c]);
    LostBetweenFlag(a, b);
    LostBetweenOrder(a, b, c);
    assert [a, b, c][..1] == [a] && [a, b, c][1..] == [b, c];
    LostBetween(a, b, c, m, n);
  }

  lemma LostBetweenFlag(a: Address, b: Address)
    requires a == [10, 0, 0, 1] && b == [10, 1, 0, 0]
    ensures IsFlag(a, b, 17) && Cut(a, 16) == b
  {
    assert a[..1] == b[..1] == [10];
    assert TopBit(a[1], b[1], 0);
    assert Cut(a, 16)[1] == 1;
  }

  lemma LostBetweenOrder(a: Address, b: Address, c: Address)
    requires a == [10, 0, 0, 1] && b == [10, 1, 0, 0] && c == [11, 0, 0, 0]
    ensures BigValue(a) < BigValue(b) < BigValue(c) && LittleValue(c) < LittleValue(b)
  {
    BigFirstDifference(a, b, 1);
    BigFirstDifference(b, c, 0);
    LittleLastDifference(c, b, 1);
  }

  lemma LostBetween(a: Address, b: Address, c: Address, m: LqTc, n: LqTc)
    requires |a| == |b| == |c| == 4 && IsFlag(a, b, 17) && Cut(a, 16) == b && a != b
    requires BigValue(a) < BigValue(b) < BigValue(c) && LittleValue(c) < LittleValue(b)
    requires m == LqTc(24, NO_BORDER, 17, [a]) && n == LqTc(32, 17, NO_BORDER, [b, c])
    ensures Sorted(BigEndian, [a, b, c]) && Fragments([a, b, c], [m, n], 4) && Usable([m, n][..1])
    ensures c !in ProcessAll(RankOf(LittleEndian), map[c := 0], [m, n][..1], 1)
  {
    TwoFragments(a, b, c, m, n);
    EdgeStaysExactly(LittleEndian, map[c := 0], [a, b, c], [m, n], 4, 1, 1, 2);
    assert UpperBorder([m, n][0]) == b;
  }

  lemma TwoFragments(a: Address, b: Address, c: Address, m: LqTc, n: LqTc)
    requires |a| == |b| == |c| == 4 && IsFlag(a, b, 17)
    requires m == LqTc(24, NO_BORDER, 17, [a]) && n == LqTc(32, 17, NO_BORDER, [b, c])
    ensures Fragments([a, b, c], [m, n], 4) && Gather([m, n][..1]) == [a]
  {
    assert [m, n][..1] == [m] && [m][..0] == [];
    assert Gather([m]) == [] + [a] && Gather([m, n]) == [a] + [b, c] == [a, b, c];
    assert Joined(m, n) && Bytes(1, 4) == 8 && Bytes(2, 4) == 16;
  }

  /** The piece of the address space that fragment `i` speaks for; the last one is closed. */
  predicate InPiece(msgs: seq<LqTc>, i: nat, x: Address)
    requires Usable(msgs) && i < |msgs|
  {
    && BigValue(LowerBorder(msgs[i])) <= BigValue(x)
    && (i + 1 == |msgs| || BigValue(x) < BigValue(UpperBorder(msgs[i])))
  }

  lemma InOrder(o: Order, list: seq<Address>, i: nat, j: nat)
    requires Sorted(o, list) && i < j < |list|
    ensures Key(o, list[i]) < Key(o, list[j])
  {
  }

  lemma MeetOrdered(o: Order, msgs: seq<LqTc>, i: nat)
    requires Sorted(o, Gather(msgs)) && i + 1 < |msgs| && msgs[i].neighbours != [] && msgs[i + 1].neighbours != []
    ensures Key(o, Last(msgs[i])) < Key(o, First(msgs[i + 1]))
  {
    var cut := NeighboursInList(Gather(msgs), msgs, i);
    InOrder(o, Gather(msgs), cut - 1, cut);
  }

  /** The border behind fragment `j` is above every address listed up to it. */
  lemma BorderAboveEarlier(msgs: seq<LqTc>, j: nat, at: nat)
    requires j + 1 < |msgs| && Meet(msgs[j], msgs[j + 1]) && BordersUsable(msgs[j])
    requires Sorted(BigEndian, Gather(msgs))
    requires at < |Gather(msgs[..j + 1])| && at < |Gather(msgs)|
    ensures BigValue(Gather(msgs)[at]) < BigValue(UpperBorder(msgs[j]))
  {
    var cut := NeighboursInList(Gather(msgs), msgs, j);
    MeetOrdered(BigEndian, msgs, j);
    MeetAbove(msgs[j], msgs[j + 1]);
    BelowBorder(Gather(msgs), cut, at, UpperBorder(msgs[j]));
  }

  lemma MeetAbove(m: LqTc, next: LqTc)
    requires Meet(m, next) && BordersUsable(m) && BigValue(Last(m)) < BigValue(First(next))
    ensures BigValue(Last(m)) < BigValue(UpperBorder(m))
  {
    CutSeparates(Last(m), First(next), m.upper - 1);
  }

  lemma BelowBorder(list: seq<Address>, cut: nat, at: nat, border: Address)
    requires Sorted(BigEndian, list) && at < cut <= |list| && BigValue(list[cut - 1]) < BigValue(border)
    ensures BigValue(list[at]) < BigValue(border)
  {
    if at < cut - 1 {
      InOrder(BigEndian, list, at, cut - 1);
    }
  }

  lemma LowerIsUpper(msgs: seq<LqTc>, i: nat)
    requires 0 < i < |msgs| && Meet(msgs[i - 1], msgs[i]) && BordersUsable(msgs[i - 1]) && BordersUsable(msgs[i])
    ensures LowerBorder(msgs[i]) == UpperBorder(msgs[i - 1])
  {
    MeetUsable(msgs[i - 1], msgs[i]);
  }

  /** An address is not below the border in front of piece `i` exactly if it is listed by
      fragment `i` or a later one. */
  lemma LowerBorderSeparates(msgs: seq<LqTc>, ipsize: nat, i: nat, at: nat)
    requires Consistent(msgs, ipsize) && Usable(msgs) && Sorted(BigEndian, Gather(msgs))
    requires 0 < i < |msgs| && at < |Gather(msgs)|
    ensures BigValue(LowerBorder(msgs[i])) <= BigValue(Gather(msgs)[at]) <==> |Gather(msgs[..i])| <= at
  {
    assert Meet(msgs[i - 1], msgs[i]);
    LowerIsUpper(msgs, i);
    if |Gather(msgs[..i])| <= at {
      BorderBelowLater(BigEndian, msgs, i - 1, at);
    } else {
      BorderAboveEarlier(msgs, i - 1, at);
    }
  }

  /** For a list sorted byte by byte the borders partition the address space: an address listed
      by fragment `j` lies in piece `i` exactly when `i` is `j`. */
  lemma PiecesPartition(list: seq<Address>, msgs: seq<LqTc>, ipsize: nat, i: nat, j: nat, at: nat)
    requires Fragments(list, msgs, ipsize) && Addresses(list, ipsize) && Sorted(BigEndian, list)
    requires i < |msgs| && j < |msgs| && |Gather(msgs[..j])| <= at < |Gather(msgs[..j + 1])| && at < |list|
    ensures Usable(msgs)
    ensures InPiece(msgs, i, list[at]) <==> i == j
  {
    FragmentsConsistent(list, msgs, ipsize);
    ConsistentTiling(msgs, ipsize);
    PiecesPartitionAux(msgs, ipsize, i, j, at);
  }

  /** Which positions of the list lie in piece `i`. */
  lemma PieceBounds(msgs: seq<LqTc>, ipsize: nat, i: nat, at: nat)
    requires Consistent(msgs, ipsize) && Usable(msgs) && Sorted(BigEndian, Gather(msgs))
    requires Addresses(Gather(msgs), ipsize) && i < |msgs| && at < |Gather(msgs)|
    ensures InPiece(msgs, i, Gather(msgs)[at]) <==>
            |Gather(msgs[..i])| <= at && (i + 1 == |msgs| || at < |Gather(msgs[..i + 1])|)
  {
    if i > 0 {
      LowerBorderSeparates(msgs, ipsize, i, at);
    } else {
      KeyOfFill(BigEndian, Gather(msgs)[at]);
    }
    if i + 1 < |msgs| {
      LowerBorderSeparates(msgs, ipsize, i + 1, at);
      LowerIsUpper(msgs, i + 1);
    }
  }

  lemma PiecesPartitionAux(msgs: seq<LqTc>, ipsize: nat, i: nat, j: nat, at: nat)
    requires Consistent(msgs, ipsize) && Usable(msgs) && Sorted(BigEndian, Gather(msgs))
    requires Addresses(Gather(msgs), ipsize)
    requires i < |msgs| && j < |msgs| && |Gather(msgs[..j])| <= at < |Gather(msgs[..j + 1])| && at < |Gather(msgs)|
    ensures InPiece(msgs, i, Gather(msgs)[at]) <==> i == j
  {
    PieceBounds(msgs, ipsize, i, at);
    if i < j {
      GatherShorter(msgs, i + 1, j);
    } else if j < i {
      GatherShorter(msgs, j + 1, i);
    }
  }

  // ---------------------------------------------------------------- raw order

  /** The bits that `a` has below the differing byte are zero, and in that byte it is the smaller one. */
  predicate CutAboveRaw(a: Address, b: Address, g: nat)
    requires |a| == |b| && g < 8 * |a|
  {
    var p := |a| - 1 - g / 8;
    a[p] < b[p] && forall i :: p < i < |a| ==> a[i] == 0
  }

  /** On a little-endian host, where IPv4 addresses are compared as raw numbers, the border is above
      the last address in front of it exactly if that address ends in zeroes behind the differing
      byte and is smaller in it. */
  lemma RawCutSeparatesExactly(a: Address, b: Address, g: nat)
    requires |a| == |b| && TopDifference(a, b, g) && LittleValue(a) < LittleValue(b)
    ensures LittleValue(a) < LittleValue(Cut(a, g)) <==> CutAboveRaw(a, b, g)
  {
    var p := |a| - 1 - g / 8;
    CutByteBetween(a[p], b[p], g % 8);
    CutShape(a, g);
    RawCompare(a, Cut(a, g), p);
  }

  /** The piece of the address space that fragment `i` speaks for as a host of order `o` compares;
      the last one is closed. */
  predicate InPieceBy(o: Order, msgs: seq<LqTc>, i: nat, x: Address)
    requires Usable(msgs) && i < |msgs|
  {
    && Key(o, LowerBorder(msgs[i])) <= Key(o, x)
    && (i + 1 == |msgs| || Key(o, x) < Key(o, UpperBorder(msgs[i])))
  }

  lemma FirstLowerBorder(msgs: seq<LqTc>, ipsize: nat)
    requires Consistent(msgs, ipsize) && Usable(msgs)
    ensures LowerBorder(msgs[0]) == Fill(ipsize, 0)
  {
  }

  /** In either order no listed address is below its own piece. */
  lemma NotBelowPiece(o: Order, msgs: seq<LqTc>, ipsize: nat, i: nat, k: nat)
    requires Consistent(msgs, ipsize) && Usable(msgs) && Sorted(o, Gather(msgs))
    requires i < |msgs| && k < |msgs[i].neighbours|
    ensures Key(o, LowerBorder(msgs[i])) <= Key(o, msgs[i].neighbours[k])
  {
    if i == 0 {
      FirstLowerBorder(msgs, ipsize);
      KeyOfFill(o, msgs[i].neighbours[k]);
    } else {
      var at := ListedAt(msgs, i, k);
      assert Meet(msgs[i - 1], msgs[i]);
      LowerIsUpper(msgs, i);
      BorderBelowLater(o, msgs, i - 1, at);
    }
  }

  /** A raw-ordered list keeps a fragment within its own piece, as a little-endian receiver compares,
      exactly if the last address of the fragment meets the condition above; the last fragment always
      stays within its piece. */
  lemma RawPiecesExactly(msgs: seq<LqTc>, ipsize: nat, i: nat)
    requires Consistent(msgs, ipsize) && Usable(msgs) && Sorted(LittleEndian, Gather(msgs)) && i < |msgs|
    ensures (forall k :: 0 <= k < |msgs[i].neighbours| ==> InPieceBy(LittleEndian, msgs, i, msgs[i].neighbours[k]))
       <==> (i + 1 == |msgs| || CutAboveRaw(Last(msgs[i]), First(msgs[i + 1]), msgs[i].upper - 1))
  {
    var m := msgs[i].neighbours;
    forall k | 0 <= k < |m| ensures Key(LittleEndian, LowerBorder(msgs[i])) <= Key(LittleEndian, m[k]) {
      NotBelowPiece(LittleEndian, msgs, ipsize, i, k);
    }
    if i + 1 < |msgs| {
      assert Meet(msgs[i], msgs[i + 1]);
      RawUpperBorder(msgs, i);
    }
  }

  /** The addresses of fragment `i` are below the border behind it. */
  lemma RawUpperBorder(msgs: seq<LqTc>, i: nat)
    requires i + 1 < |msgs| && Meet(msgs[i], msgs[i + 1]) && BordersUsable(msgs[i]) && Sorted(LittleEndian, Gather(msgs))
    ensures (forall k :: 0 <= k < |msgs[i].neighbours| ==>
               Key(LittleEndian, msgs[i].neighbours[k]) < Key(LittleEndian, UpperBorder(msgs[i])))
       <==> CutAboveRaw(Last(msgs[i]), First(msgs[i + 1]), msgs[i].upper - 1)
  {
    var m, border := msgs[i].neighbours, UpperBorder(msgs[i]);
    RawLastBelow(msgs, i);
    forall k | 0 <= k < |m| ensures Key(LittleEndian, m[k]) <= Key(LittleEndian, m[|m| - 1]) {
      FragmentInOrder(LittleEndian, msgs, i, k);
    }
  }

  lemma RawLastBelow(msgs: seq<LqTc>, i: nat)
    requires i + 1 < |msgs| && Meet(msgs[i], msgs[i + 1]) && BordersUsable(msgs[i]) && Sorted(LittleEndian, Gather(msgs))
    ensures Key(LittleEndian, Last(msgs[i])) < Key(LittleEndian, UpperBorder(msgs[i]))
       <==> CutAboveRaw(Last(msgs[i]), First(msgs[i + 1]), msgs[i].upper - 1)
  {
    MeetOrdered(LittleEndian, msgs, i);
    RawMeet(msgs[i], msgs[i + 1]);
  }

  lemma RawMeet(m: LqTc, next: LqTc)
    requires Meet(m, next) && BordersUsable(m) && Key(LittleEndian, Last(m)) < Key(LittleEndian, First(next))
    ensures Key(LittleEndian, Last(m)) < Key(LittleEndian, UpperBorder(m)) <==> CutAboveRaw(Last(m), First(next), m.upper - 1)
  {
    RawCutSeparatesExactly(Last(m), First(next), m.upper - 1);
  }

  lemma FragmentInOrder(o: Order, msgs: seq<LqTc>, i: nat, k: nat)
    requires i < |msgs| && k < |msgs[i].neighbours| && Sorted(o, Gather(msgs))
    ensures Key(o, msgs[i].neighbours[k]) <= Key(o, Last(msgs[i]))
  {
    var n := |msgs[i].neighbours|;
    if k < n - 1 {
      var at := ListedAt(msgs, i, k);
      var last := ListedAt(msgs, i, n - 1);
      InOrder(o, Gather(msgs), at, last);
    }
  }

  /** IPv4 lists on a little-endian host are sorted by the raw number, and then an address can
      lie beyond the border of its own fragment: 10.0.1.1 and 10.0.0.2 are in raw order, the
      flag between them is 9, and the border 10.0.1.0 is below both. */
  lemma RawOrderMissesPiece()
    ensures var a, b, border: Address := [10, 0, 1, 1], [10, 0, 0, 2], [10, 0, 1, 0];
      && Sorted(LittleEndian, [a, b])
      && IsFlag(a, b, 9) && Cut(a, 8) == border && !CutAboveRaw(a, b, 8)
      && Key(LittleEndian, border) < Key(LittleEndian, a)
      && !(BigValue(a) < BigValue(border) <= BigValue(b))
  {
    BigFirstDifference([10, 0, 1, 0], [10, 0, 1, 1], 3);
  }
}

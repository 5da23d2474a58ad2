/** The receiving side of LQ_TC: how the edges known for an originator follow the fragments
    of its advertisement. */
module TopologySync {
  import opened Basics
  import opened Borders
  import opened SequenceNumbers
  import opened TopologyControl

  /** The advertised edges of one originator, each with the advertisement number that last
      confirmed it. */
  type Edges = map<Address, Seq16>

  /** `SEQNO_GREATER_THAN`. */
  predicate Newer(s1: Seq16, s2: Seq16) {
    (s1 > s2 && s1 - s2 <= 0x7fff) || (s2 > s1 && s2 - s1 > 0x7fff)
  }

  /** Over unbounded advertisement numbers it is the true order, as long as they are less than half the number space
      apart; at exactly half the space the larger residue counts as older, whichever number is larger. */
  lemma NewerIsOrder(m: int, n: int)
    ensures -HALF < m - n < HALF ==> (Newer(Wrap(m), Wrap(n)) <==> m > n)
    ensures m - n == HALF || n - m == HALF ==> (Newer(Wrap(m), Wrap(n)) <==> Wrap(n) > Wrap(m))
  {
    assert m == MODULUS * (m / MODULUS) + Wrap(m);
    assert n == MODULUS * (n / MODULUS) + Wrap(n);
  }

  /** A flag other than 0xff names a bit of the address. */
  predicate FlagUsable(a: Address, flag: Byte) {
    flag == NO_BORDER || 1 <= flag <= 8 * |a|
  }

  predicate BordersUsable(m: LqTc) {
    m.neighbours != [] ==>
      FlagUsable(m.neighbours[0], m.lower) && FlagUsable(m.neighbours[|m.neighbours| - 1], m.upper)
  }

  /** A message without link quality, whose border flags are both zero. */
  predicate Plain(m: LqTc) {
    m.lower == 0 && m.upper == 0
  }

  /** A border address: the end of the address space, or a cut through a listed address. */
  function Border(a: Address, flag: Byte, end: Byte): (b: Address)
    requires FlagUsable(a, flag)
    ensures |b| == |a|
  {
    if flag == NO_BORDER then Fill(|a|, end) else Cut(a, flag - 1)
  }

  function LowerBorder(m: LqTc): Address
    requires m.neighbours != [] && BordersUsable(m)
  {
    Border(m.neighbours[0], m.lower, 0)
  }

  function UpperBorder(m: LqTc): Address
    requires m.neighbours != [] && BordersUsable(m)
  {
    Border(m.neighbours[|m.neighbours| - 1], m.upper, 255)
  }

  /** How the receiving host compares addresses, as a rank. */
  type Rank = Address -> nat

  function RankOf(o: Order): Rank {
    a => Key(o, a)
  }

  /** Addresses of one length have distinct ranks. */
  ghost predicate Distinguishes(rank: Rank, ipsize: nat) {
    forall a: Address, b: Address :: |a| == |b| == ipsize && rank(a) == rank(b) ==> a == b
  }

  predicate Within(rank: Rank, x: Address, lower: Address, upper: Address) {
    rank(lower) <= rank(x) && !(rank(upper) <= rank(x))
  }

  function Confirmed(edges: Edges, neighbours: seq<Address>, ansn: Seq16): Edges {
    edges + map x | x in neighbours :: ansn
  }

  /** An unknown edge to a denied address is not added. */
  predicate Refused(edges: Edges, denied: set<Address>, x: Address) {
    x !in edges && x in denied
  }

  predicate NoneRefused(edges: Edges, denied: set<Address>, neighbours: seq<Address>) {
    forall i :: 0 <= i < |neighbours| ==> !Refused(edges, denied, neighbours[i])
  }

  /** The walk over a message has confirmed the first `n` addresses, none of them refused. */
  predicate Walked(before: Edges, now: Edges, neighbours: seq<Address>, ansn: Seq16, denied: set<Address>, n: nat) {
    n <= |neighbours| && now == Confirmed(before, neighbours[..n], ansn) && NoneRefused(before, denied, neighbours[..n])
  }

  lemma WalkStarts(edges: Edges, neighbours: seq<Address>, ansn: Seq16, denied: set<Address>)
    ensures Walked(edges, edges, neighbours, ansn, denied, 0)
  {
    assert Confirmed(edges, neighbours[..0], ansn) == edges;
  }

  /** Confirming edges first does not change who is refused. */
  lemma WalkNext(before: Edges, now: Edges, neighbours: seq<Address>, ansn: Seq16, denied: set<Address>, n: nat)
    requires n < |neighbours| && Walked(before, now, neighbours, ansn, denied, n)
    ensures Refused(now, denied, neighbours[n]) <==> Refused(before, denied, neighbours[n])
    ensures !Refused(now, denied, neighbours[n]) ==> Walked(before, now[neighbours[n] := ansn], neighbours, ansn, denied, n + 1)
  {
    var x, front := neighbours[n], neighbours[..n];
    ConfirmedNext(before, neighbours, n, ansn);
    assert neighbours[..n + 1] == front + [x];
    if x in front {
      var i :| 0 <= i < n && front[i] == x;
      assert !Refused(before, denied, front[i]);
    }
  }

  /** The first `n` listed edges are confirmed, and nothing else is changed. */
  predicate ConfirmedUpTo(edges: Edges, after: Edges, neighbours: seq<Address>, ansn: Seq16, n: nat) {
    n <= |neighbours| && after == Confirmed(edges, neighbours[..n], ansn)
  }

  lemma ConfirmedNext(edges: Edges, neighbours: seq<Address>, i: nat, ansn: Seq16)
    requires i < |neighbours|
    ensures Confirmed(edges, neighbours[..i + 1], ansn) ==
            Confirmed(edges, neighbours[..i], ansn)[neighbours[i] := ansn]
  {
    assert neighbours[..i + 1] == neighbours[..i] + [neighbours[i]];
  }

  /** Drop the edges between the borders that the advertisement `ansn` did not confirm. */
  function Revoked(rank: Rank, edges: Edges, ansn: Seq16, lower: Address, upper: Address): Edges {
    map x | x in edges && !(Within(rank, x, lower, upper) && Newer(ansn, edges[x])) :: edges[x]
  }

  /** The edges after one LQ_TC message has been processed. */
  function Process(rank: Rank, edges: Edges, m: LqTc, ansn: Seq16): Edges
    requires BordersUsable(m) || Plain(m)
  {
    if m.neighbours == [] then
      if m.lower == NO_BORDER && m.upper == NO_BORDER then map[] else edges
    else if Plain(m) then Confirmed(edges, m.neighbours, ansn)
    else Revoked(rank, Confirmed(edges, m.neighbours, ansn), ansn, LowerBorder(m), UpperBorder(m))
  }

  /** The two messages that revoke nothing: a plain one confirms what it lists, and an empty one within borders does
      nothing at all. An empty one without borders takes every edge. */
  lemma ProcessWithoutBorders(rank: Rank, edges: Edges, m: LqTc, ansn: Seq16)
    requires m.neighbours == [] || (m.lower == 0 && m.upper == 0)
    ensures BordersUsable(m) || Plain(m)
    ensures m.neighbours != [] ==> forall x ::
              && (x in Process(rank, edges, m, ansn) <==> x in edges || x in m.neighbours)
              && (x in Process(rank, edges, m, ansn) ==>
                    Process(rank, edges, m, ansn)[x] == if x in m.neighbours then ansn else edges[x])
    ensures m.neighbours == [] ==> Process(rank, edges, m, ansn) == if m.lower == 255 && m.upper == 255 then map[] else edges
  {
  }

  predicate Ascending(rank: Rank, w: seq<Address>) {
    forall i, j :: 0 <= i < j < |w| ==> rank(w[i]) < rank(w[j])
  }

  /** Where a new address belongs in the ascending walk. */
  method Position(rank: Rank, w: seq<Address>, a: Address) returns (k: nat)
    requires Ascending(rank, w) && Addresses(w, |a|) && a !in w && Distinguishes(rank, |a|)
    ensures k <= |w| && Ascending(rank, w[..k] + [a] + w[k..])
  {
    k := 0;
    while k < |w| && rank(w[k]) <= rank(a)
      invariant 0 <= k <= |w|
      invariant forall i :: 0 <= i < k ==> rank(w[i]) < rank(a)
    {
      k := k + 1;
    }
    assert forall i :: k <= i < |w| ==> rank(a) < rank(w[i]);
  }

  lemma InsertedMembers(w: seq<Address>, k: nat, a: Address, ipsize: nat)
    requires k <= |w| && Addresses(w, ipsize) && |a| == ipsize
    ensures Addresses(w[..k] + [a] + w[k..], ipsize)
    ensures forall x :: x in w[..k] + [a] + w[k..] <==> x in w || x == a
  {
    assert w == w[..k] + w[k..];
  }

  predicate Survives(rank: Rank, edges: Edges, ansn: Seq16, lower: Address, upper: Address, x: Address)
    requires x in edges
  {
    !(Within(rank, x, lower, upper) && Newer(ansn, edges[x]))
  }

  /** The survivors among the first `n` addresses of a walk. */
  function Survivors(rank: Rank, w: seq<Address>, edges: Edges, ansn: Seq16, lower: Address, upper: Address, n: nat)
    : seq<Address>
    requires n <= |w| && forall i :: 0 <= i < |w| ==> w[i] in edges
  {
    if n == 0 then []
    else Survivors(rank, w, edges, ansn, lower, upper, n - 1)
         + if Survives(rank, edges, ansn, lower, upper, w[n - 1]) then [w[n - 1]] else []
  }

  lemma {:induction false} SurvivorsFacts(rank: Rank, w: seq<Address>, edges: Edges, ansn: Seq16,
                                          lower: Address, upper: Address, n: nat)
    requires n <= |w| && Ascending(rank, w) && forall i :: 0 <= i < |w| ==> w[i] in edges
    ensures var kept := Survivors(rank, w, edges, ansn, lower, upper, n);
      && Ascending(rank, kept)
      && (forall x :: x in kept ==> n > 0 && rank(x) <= rank(w[n - 1]))
      && forall x :: x in kept <==> x in w[..n] && Survives(rank, edges, ansn, lower, upper, x)
  {
    if n > 0 {
      SurvivorsFacts(rank, w, edges, ansn, lower, upper, n - 1);
      assert w[..n] == w[..n - 1] + [w[n - 1]];
      var before := Survivors(rank, w, edges, ansn, lower, upper, n - 1);
      assert forall k :: 0 <= k < |before| ==> before[k] in before;
    }
  }

  /** Behind the upper border everything survives. */
  lemma {:induction false} RestSurvives(rank: Rank, w: seq<Address>, edges: Edges, ansn: Seq16,
                                        lower: Address, upper: Address, i: nat, n: nat)
    requires i <= n <= |w| && forall k :: 0 <= k < |w| ==> w[k] in edges
    requires forall k :: i <= k < n ==> Survives(rank, edges, ansn, lower, upper, w[k])
    ensures Survivors(rank, w, edges, ansn, lower, upper, n) ==
            Survivors(rank, w, edges, ansn, lower, upper, i) + w[i..n]
  {
    if i < n {
      RestSurvives(rank, w, edges, ansn, lower, upper, i, n - 1);
      assert w[i..n] == w[i..n - 1] + [w[n - 1]];
    }
  }

  /** The walk of `olsr_delete_revoked_tc_edges`: from the lower border on and no further
      than the upper one, keep what is not revoked. */
  method WalkRevoked(rank: Rank, w: seq<Address>, edges: Edges, ansn: Seq16, lower: Address, upper: Address)
    returns (kept: seq<Address>)
    requires Ascending(rank, w) && forall i :: 0 <= i < |w| ==> w[i] in edges
    ensures Ascending(rank, kept)
    ensures forall x :: x in kept <==> x in w && Survives(rank, edges, ansn, lower, upper, x)
  {
    kept := [];
    var i, passedLower := 0, false;
    while i < |w|
      invariant 0 <= i <= |w|
      invariant kept == Survivors(rank, w, edges, ansn, lower, upper, i)
      invariant passedLower <==> i > 0 && rank(lower) <= rank(w[i - 1])
    {
      if !passedLower && rank(lower) <= rank(w[i]) {
        passedLower := true;
      }
      if passedLower && rank(upper) <= rank(w[i]) {
        break;
      }
      if !(passedLower && Newer(ansn, edges[w[i]])) {
        kept := kept + [w[i]];
      }
      i := i + 1;
    }
    RestSurvives(rank, w, edges, ansn, lower, upper, i, |w|);
    kept := kept + w[i..];
    SurvivorsFacts(rank, w, edges, ansn, lower, upper, |w|);
    assert w[..|w|] == w;
  }

  lemma OrdersDistinguish(o: Order, ipsize: nat)
    ensures Distinguishes(RankOf(o), ipsize)
  {
    forall a: Address, b: Address | |a| == |b| == ipsize && Key(o, a) == Key(o, b)
      ensures a == b
    {
      KeyInjective(o, a, b);
    }
  }

  /** The tree of edges: addresses in ascending order, each with its advertisement number. */
  class TcEntry {
    const rank: Rank
    const ipsize: nat
    var walk: seq<Address>
    var edges: Edges

    ghost predicate Valid()
      reads this
    {
      && 0 < ipsize <= 16
      && Distinguishes(rank, ipsize) && Ascending(rank, walk)
      && Addresses(walk, ipsize)
      && forall x :: x in walk <==> x in edges
    }

    constructor (rank: Rank, ipsize: nat)
      requires 0 < ipsize <= 16 && Distinguishes(rank, ipsize)
      ensures Valid() && edges == map[] && this.rank == rank && this.ipsize == ipsize
    {
      this.rank, this.ipsize, walk, edges := rank, ipsize, [], map[];
    }

    /** `olsr_tc_update_edge`: confirm a known edge or insert a new one in order, unless its address is
        denied. `read` says whether the link quality behind the address is read, which it is not then. */
    method UpdateEdge(a: Address, ansn: Seq16, denied: bool) returns (read: bool)
      requires Valid() && |a| == ipsize
      modifies this
      ensures Valid() && edges == if a !in old(edges) && denied then old(edges) else old(edges)[a := ansn]
      ensures !read <==> a !in old(edges) && denied
    {
      read := true;
      if a !in edges {
        if denied {
          return false;
        }
        var k := Position(rank, walk, a);
        InsertedMembers(walk, k, a, ipsize);
        walk := walk[..k] + [a] + walk[k..];
      }
      edges := edges[a := ansn];
    }

    /** `olsr_delete_revoked_tc_edges`. */
    method DeleteRevoked(ansn: Seq16, lower: Address, upper: Address)
      requires Valid()
      modifies this
      ensures Valid() && edges == Revoked(rank, old(edges), ansn, lower, upper)
    {
      var kept := WalkRevoked(rank, walk, edges, ansn, lower, upper);
      forall i | 0 <= i < |kept|
        ensures |kept[i]| == ipsize
      {
        assert kept[i] in kept;
        assert kept[i] in walk;
      }
      walk := kept;
      edges := map x | x in edges && x in kept :: edges[x];
    }

    /** The walk over the addresses of a message, until one is refused: the code then reads on, but out of
        step with the message. */
    method ConfirmAll(neighbours: seq<Address>, ansn: Seq16, denied: set<Address>) returns (n: nat)
      requires Valid() && Addresses(neighbours, ipsize)
      modifies this
      ensures Valid() && Walked(old(edges), edges, neighbours, ansn, denied, n)
      ensures n < |neighbours| ==> Refused(old(edges), denied, neighbours[n])
    {
      n := 0;
      WalkStarts(edges, neighbours, ansn, denied);
      while n < |neighbours|
        invariant Valid() && Walked(old(edges), edges, neighbours, ansn, denied, n)
      {
        WalkNext(old(edges), edges, neighbours, ansn, denied, n);
        var read := UpdateEdge(neighbours[n], ansn, neighbours[n] in denied);
        if !read {
          return;
        }
        n := n + 1;
      }
    }

    /** The edge part of `olsr_input_tc`, for a message whose sequence numbers were accepted. It is followed
        as long as the code stays in step with the message and within the addresses: `ok` exactly if no
        address is refused and the border flags can be used. */
    method Receive(m: LqTc, ansn: Seq16, denied: set<Address>) returns (ok: bool)
      requires Valid() && Addresses(m.neighbours, ipsize)
      modifies this
      ensures Valid() && (ok <==> NoneRefused(old(edges), denied, m.neighbours) && (BordersUsable(m) || Plain(m)))
      ensures ok ==> edges == Process(rank, old(edges), m, ansn)
      ensures !ok ==> exists n: nat :: ConfirmedUpTo(old(edges), edges, m.neighbours, ansn, n)
    {
      var n := ConfirmAll(m.neighbours, ansn, denied);
      assert ConfirmedUpTo(old(edges), edges, m.neighbours, ansn, n);
      if n < |m.neighbours| {
        return false;
      }
      ok := true;
      assert m.neighbours[..n] == m.neighbours;
      if m.neighbours != [] {
        if m.lower == 0 && m.upper == 0 {
          return;
        }
        var first, lower := BorderAddress(m.neighbours[0], m.lower, 0);
        var second, upper := BorderAddress(m.neighbours[|m.neighbours| - 1], m.upper, 255);
        if !first || !second {
          return false;
        }
        DeleteRevoked(ansn, lower, upper);
      } else if m.lower == NO_BORDER && m.upper == NO_BORDER {
        walk, edges := [], map[];
      }
    }
  }

  /** One half of `olsr_calculate_tc_border`, on a copy of a listed address. */
  method BorderAddress(a: Address, flag: Byte, end: Byte) returns (inside: bool, b: Address)
    requires |a| <= 16
    ensures inside <==> FlagUsable(a, flag)
    ensures b == if inside then Border(a, flag, end) else a
  {
    if flag == NO_BORDER {
      return true, Fill(|a|, end);
    }
    var copy := new Byte[|a|](i requires 0 <= i < |a| => a[i]);
    assert copy[..] == a;
    inside := CutAddress(copy, flag);
    b := copy[..];
  }
}

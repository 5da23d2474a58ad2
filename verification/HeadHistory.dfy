/** Looking for a head between elections, and whether a node ever has more than one head over every
    course of elections, searches, hellos, links and neighbours that come and go. */
module HeadHistory {
  import opened Basics
  import opened HeadElection

  // ---------------------------------------------------------------- looking for a head

  /** A symmetric neighbour that announces itself as head. */
  predicate Offers(n: Neighbour) {
    n.isHead != 0 && n.sym
  }

  /** A head that is not symmetric any more loses its marks. */
  function Demoted(n: Neighbour): Neighbour {
    if n.isHead != 0 && !n.sym then n.(myHead := false, isMpr := false) else n
  }

  function DemotedAll(nbrs: seq<Neighbour>): (r: seq<Neighbour>)
    ensures |r| == |nbrs| && forall i :: 0 <= i < |r| ==> r[i] == Demoted(nbrs[i])
  {
    seq(|nbrs|, i requires 0 <= i < |nbrs| => Demoted(nbrs[i]))
  }

  /** The last of the best offers among the first `n` neighbours. */
  function Offer(nbrs: seq<Neighbour>, n: nat): (o: Option<nat>)
    requires n <= |nbrs|
    ensures o.None? ==> forall i :: 0 <= i < n ==> !Offers(nbrs[i])
    ensures o.Some? ==> o.value < n && Offers(nbrs[o.value])
    ensures o.Some? ==> forall i :: 0 <= i < n && Offers(nbrs[i]) ==> nbrs[i].qos <= nbrs[o.value].qos
    ensures o.Some? ==> forall i :: o.value < i < n && Offers(nbrs[i]) ==> nbrs[i].qos < nbrs[o.value].qos
  {
    if n == 0 then None
    else
      var o := Offer(nbrs, n - 1);
      if Offers(nbrs[n - 1]) && (o.None? || nbrs[n - 1].qos >= nbrs[o.value].qos) then Some(n - 1) else o
  }

  /** The table after looking for a head: the best offer is marked, or there is an election. */
  function Found(nbrs: seq<Neighbour>, qos: nat, isHead: nat): seq<Neighbour> {
    var o := Offer(nbrs, |nbrs|);
    if o.Some? then Marked(DemotedAll(nbrs), o) else Outcome(DemotedAll(nbrs), qos, isHead)
  }

  function FoundStatus(nbrs: seq<Neighbour>, qos: nat, isHead: nat): nat {
    if Offer(nbrs, |nbrs|).Some? then isHead else OwnStatus(DemotedAll(nbrs), qos, isHead)
  }

  /** The loop of `olsr_find_head`. */
  method ScanOffers(nbrs: array<Neighbour>) returns (found: bool, maxIp: nat)
    modifies nbrs
    ensures nbrs[..] == DemotedAll(old(nbrs[..]))
    ensures var o := Offer(old(nbrs[..]), nbrs.Length); found == o.Some? && (o.Some? ==> maxIp == old(nbrs[..])[o.value].addr)
  {
    found, maxIp := false, 0;
    var maxQos := 0;
    ghost var before := nbrs[..];
    var i := 0;
    while i < nbrs.Length
      invariant 0 <= i <= nbrs.Length
      invariant forall k :: 0 <= k < i ==> nbrs[k] == Demoted(before[k])
      invariant forall k :: i <= k < nbrs.Length ==> nbrs[k] == before[k]
      invariant OfferSeen(before, i, found, maxQos, maxIp)
    {
      var n := nbrs[i];
      if n.isHead == 0 || !n.sym {
        if n.isHead != 0 {
          nbrs[i] := n.(isMpr := false, myHead := false);
        }
      } else {
        found := true;
        if n.qos >= maxQos {
          maxQos, maxIp := n.qos, n.addr;
        }
      }
      i := i + 1;
    }
  }

  /** What the loop knows after `n` neighbours. */
  predicate OfferSeen(nbrs: seq<Neighbour>, n: nat, found: bool, maxQos: nat, maxIp: nat)
    requires n <= |nbrs|
  {
    var o := Offer(nbrs, n);
    found == o.Some? && (if o.Some? then maxQos == nbrs[o.value].qos && maxIp == nbrs[o.value].addr else maxQos == 0)
  }

  /** `olsr_find_head` */
  method FindHead(nbrs: array<Neighbour>, own: nat, qos: nat, isHead: nat) returns (isHead': nat)
    requires DistinctAddresses(nbrs[..]) && Foreign(nbrs[..], own) && isHead <= 3
    modifies nbrs
    ensures nbrs[..] == Found(old(nbrs[..]), qos, isHead) && isHead' == FoundStatus(old(nbrs[..]), qos, isHead)
  {
    ghost var before := nbrs[..];
    var found, maxIp := ScanOffers(nbrs);
    DemotedAddresses(before);
    isHead' := isHead;
    if found {
      var at := Lookup(nbrs, maxIp);
      OfferByAddress(nbrs[..], Offer(before, |before|).value, maxIp, at);
      Mark(nbrs, at);
    } else {
      isHead' := CalculateHead(nbrs, own, qos, isHead);
    }
  }

  lemma OfferByAddress(nbrs: seq<Neighbour>, k: nat, addr: nat, at: Option<nat>)
    requires DistinctAddresses(nbrs) && k < |nbrs| && addr == nbrs[k].addr
    requires at.Some? ==> at.value < |nbrs| && nbrs[at.value].addr == addr
    requires at.None? ==> forall i :: 0 <= i < |nbrs| ==> nbrs[i].addr != addr
    ensures at == Some(k)
  {
  }

  lemma DemotedAddresses(nbrs: seq<Neighbour>)
    requires DistinctAddresses(nbrs)
    ensures DistinctAddresses(DemotedAll(nbrs))
  {
    var now := DemotedAll(nbrs);
    assert forall i :: 0 <= i < |now| ==> now[i].addr == nbrs[i].addr;
  }

  /** What a search that finds an offer does to the marks: a best offer gets both, a head that is not symmetric
      any more loses both, and nobody else's change. */
  lemma SearchMarks(nbrs: seq<Neighbour>, qos: nat, isHead: nat, i: nat)
    requires i < |nbrs| && exists j :: 0 <= j < |nbrs| && nbrs[j].isHead != 0 && nbrs[j].sym
    ensures var after, k := Found(nbrs, qos, isHead), Offer(nbrs, |nbrs|);
      && |after| == |nbrs| && k.Some? && FoundStatus(nbrs, qos, isHead) == isHead
      && nbrs[k.value].isHead != 0 && nbrs[k.value].sym && after[k.value].myHead && after[k.value].isMpr
      && (nbrs[i].isHead != 0 && nbrs[i].sym ==> nbrs[i].qos <= nbrs[k.value].qos)
      && (nbrs[i].isHead != 0 && !nbrs[i].sym ==> !after[i].myHead && !after[i].isMpr)
      && (i != k.value && (nbrs[i].isHead == 0 || nbrs[i].sym) ==> after[i] == nbrs[i])
      && after[i] == nbrs[i].(myHead := after[i].myHead, isMpr := after[i].isMpr)
  {
    var j :| 0 <= j < |nbrs| && nbrs[j].isHead != 0 && nbrs[j].sym;
    assert Offers(nbrs[j]);
  }

  /** Without an offer there is an election, in which no head that lost its symmetry takes part. */
  lemma SearchElects(nbrs: seq<Neighbour>, qos: nat, isHead: nat, i: nat)
    requires i < |nbrs| && forall j :: 0 <= j < |nbrs| ==> nbrs[j].isHead == 0 || !nbrs[j].sym
    ensures var after := Found(nbrs, qos, isHead);
      && |after| == |nbrs|
      && (nbrs[i].linked ==> (after[i].isMpr <==> after[i].myHead) && (after[i].myHead ==> nbrs[i].sym && nbrs[i].isHead == 0))
      && (!nbrs[i].linked && nbrs[i].isHead == 0 ==> after[i] == nbrs[i])
  {
    HeadsRelay(DemotedAll(nbrs), qos, isHead, i);
    OneSymmetricHead(DemotedAll(nbrs), qos, isHead, i, i);
  }

  // ---------------------------------------------------------------- when it leaves a single head

  /** Some linked neighbour other than `k` keeps its mark. */
  predicate MarkedBeside(nbrs: seq<Neighbour>, k: nat) {
    exists i :: 0 <= i < |nbrs| && i != k && Demoted(nbrs[i]).linked && Demoted(nbrs[i]).myHead
  }

  predicate OthersUnmarked(nbrs: seq<Neighbour>, k: nat) {
    forall i :: 0 <= i < |nbrs| && i != k && nbrs[i].linked ==> !nbrs[i].myHead
  }

  /** Marking a linked neighbour leaves a single head exactly if the node is not head itself and no
      other linked neighbour is marked. */
  lemma MarkLinked(nbrs: seq<Neighbour>, isHead: nat, k: nat)
    requires k < |nbrs| && nbrs[k].linked
    ensures SingleHead(Marked(nbrs, Some(k)), isHead) <==> !Elected(isHead) && OthersUnmarked(nbrs, k)
  {
    var after := Marked(nbrs, Some(k));
    assert forall i :: 0 <= i < |nbrs| && i != k ==> after[i] == nbrs[i];
    assert after[k].myHead && after[k].linked;
  }

  /** Marking one without a link changes nothing. */
  lemma MarkUnlinked(nbrs: seq<Neighbour>, isHead: nat, k: nat)
    requires k < |nbrs| && !nbrs[k].linked
    ensures SingleHead(Marked(nbrs, Some(k)), isHead) <==> SingleHead(nbrs, isHead)
  {
    var after := Marked(nbrs, Some(k));
    if SingleHead(nbrs, isHead) {
      SameLinkedMarks(nbrs, after, isHead);
    } else if SingleHead(after, isHead) {
      SameLinkedMarks(after, nbrs, isHead);
    }
  }

  /** Only the marks of linked neighbours matter. */
  lemma SameLinkedMarks(nbrs: seq<Neighbour>, after: seq<Neighbour>, isHead: nat)
    requires |nbrs| == |after| && SingleHead(nbrs, isHead)
    requires forall i :: 0 <= i < |nbrs| && after[i].linked && after[i].myHead ==> nbrs[i].linked && nbrs[i].myHead
    ensures SingleHead(after, isHead)
  {
    if MarkedHead(after) {
      var i :| 0 <= i < |after| && after[i].linked && after[i].myHead;
      assert nbrs[i].linked && nbrs[i].myHead;
    }
  }

  lemma DemotionKeepsSingleHead(nbrs: seq<Neighbour>, isHead: nat)
    requires SingleHead(nbrs, isHead)
    ensures SingleHead(DemotedAll(nbrs), isHead)
  {
    SameLinkedMarks(nbrs, DemotedAll(nbrs), isHead);
  }

  /** Exactly when looking for a head leaves a single one, for a node that had at most one: nobody
      offers, so that there is an election; or the best offer has no link; or the node is not head
      itself and no linked neighbour but the best offer keeps a mark. */
  predicate FindKeeps(nbrs: seq<Neighbour>, isHead: nat) {
    var o := Offer(nbrs, |nbrs|);
    o.None? || !nbrs[o.value].linked || (!Elected(isHead) && !MarkedBeside(nbrs, o.value))
  }

  lemma FindHeadExactly(nbrs: seq<Neighbour>, qos: nat, isHead: nat)
    requires isHead <= 3 && SingleHead(nbrs, isHead)
    ensures SingleHead(Found(nbrs, qos, isHead), FoundStatus(nbrs, qos, isHead)) <==> FindKeeps(nbrs, isHead)
  {
    DemotionKeepsSingleHead(nbrs, isHead);
    var o, now := Offer(nbrs, |nbrs|), DemotedAll(nbrs);
    if o.None? {
      ElectionKeepsSingleHead(now, qos, isHead);
    } else if nbrs[o.value].linked {
      FindHeadFromAnywhere(nbrs, qos, isHead, o.value);
    } else {
      MarkUnlinked(now, isHead, o.value);
    }
  }

  /** Whatever the state before, a search that marks a linked offer leaves a single head exactly if the
      node is not head itself and no linked neighbour but the offer keeps a mark. */
  lemma FindHeadFromAnywhere(nbrs: seq<Neighbour>, qos: nat, isHead: nat, k: nat)
    requires Offer(nbrs, |nbrs|) == Some(k) && nbrs[k].linked
    ensures SingleHead(Found(nbrs, qos, isHead), FoundStatus(nbrs, qos, isHead)) <==>
            !Elected(isHead) && !MarkedBeside(nbrs, k)
  {
    BesideMeans(nbrs, k);
    MarkLinked(DemotedAll(nbrs), isHead, k);
  }

  lemma BesideMeans(nbrs: seq<Neighbour>, k: nat)
    ensures MarkedBeside(nbrs, k) <==> !OthersUnmarked(DemotedAll(nbrs), k)
  {
    var now := DemotedAll(nbrs);
    if MarkedBeside(nbrs, k) {
      var i :| 0 <= i < |nbrs| && i != k && Demoted(nbrs[i]).linked && Demoted(nbrs[i]).myHead;
      assert now[i].linked && now[i].myHead;
    }
  }

  // ---------------------------------------------------------------- every course of events

  /** The neighbour table and the node's own status. */
  datatype Node = Node(nbrs: seq<Neighbour>, bits: Bits)

  /** An election; a search for a head; a hello that changes what is known of a neighbour; a neighbour's
      links becoming usable and unusable; a neighbour that comes, and one that is deleted, which starts
      a search if it was the head; and what happens to the selectors. */
  datatype Event =
    | Elect(qos: nat) | Search(qos: nat)
    | Hello(i: nat, sym: bool, nbrQos: nat, isHead: nat)
    | LinkUp(i: nat) | LinkDown(i: nat)
    | Join(addr: nat, linked: bool) | Leave(i: nat, qos: nat)
    | Selectors(e: StatusEvent)

  function Searched(s: Node, qos: nat): Node {
    Node(Found(s.nbrs, qos, s.bits.isHead), s.bits.(isHead := FoundStatus(s.nbrs, qos, s.bits.isHead)))
  }

  function Next(s: Node, e: Event): Node {
    match e
    case Elect(qos) => Node(Outcome(s.nbrs, qos, s.bits.isHead), s.bits.Next(Election(s.nbrs, qos)))
    case Search(qos) => Searched(s, qos)
    case Hello(i, sym, q, h) =>
      if i < |s.nbrs| then s.(nbrs := s.nbrs[i := s.nbrs[i].(sym := sym, qos := q, isHead := h)]) else s
    case LinkUp(i) => if i < |s.nbrs| then s.(nbrs := s.nbrs[i := s.nbrs[i].(linked := true)]) else s
    case LinkDown(i) => if i < |s.nbrs| then s.(nbrs := s.nbrs[i := s.nbrs[i].(linked := false)]) else s
    case Join(addr, linked) => s.(nbrs := [Neighbour(addr, linked, false, 0, 0, false, false)] + s.nbrs)
    case Leave(i, qos) =>
      if i >= |s.nbrs| then s
      else
        var t := s.(nbrs := Without(s.nbrs, i));
        if s.nbrs[i].myHead then Searched(t, qos) else t
    case Selectors(e) => if e.Election? then s else s.(bits := s.bits.Next(e))
  }

  predicate Single(s: Node) {
    SingleHead(s.nbrs, s.bits.isHead)
  }

  /** What keeps a single head: only searches and returning links can fail to, and when they do is
      known beforehand. */
  predicate Keeps(s: Node, e: Event) {
    match e
    case Search(_) => FindKeeps(s.nbrs, s.bits.isHead)
    case LinkUp(i) => i < |s.nbrs| && !s.nbrs[i].linked && s.nbrs[i].myHead ==> !Elected(s.bits.isHead) && !MarkedHead(s.nbrs)
    case Leave(i, _) => i < |s.nbrs| && s.nbrs[i].myHead ==> FindKeeps(Without(s.nbrs, i), s.bits.isHead)
    case _ => true
  }

  /** A link that comes up keeps a single head exactly if its neighbour carries no old mark, or there is
      no head at all. */
  lemma LinkUpExactly(nbrs: seq<Neighbour>, isHead: nat, i: nat)
    requires SingleHead(nbrs, isHead) && i < |nbrs| && !nbrs[i].linked
    ensures SingleHead(nbrs[i := nbrs[i].(linked := true)], isHead) <==>
            !(nbrs[i].myHead && (Elected(isHead) || MarkedHead(nbrs)))
  {
    var after := nbrs[i := nbrs[i].(linked := true)];
    assert forall k :: 0 <= k < |nbrs| && k != i ==> after[k] == nbrs[k];
    if nbrs[i].myHead {
      assert after[i].linked && after[i].myHead;
    } else {
      SameLinkedMarks(nbrs, after, isHead);
    }
  }

  lemma WithoutKeepsSingle(nbrs: seq<Neighbour>, isHead: nat, i: nat)
    requires SingleHead(nbrs, isHead) && i < |nbrs|
    ensures SingleHead(Without(nbrs, i), isHead)
  {
    var rest := Without(nbrs, i);
    assert forall k :: 0 <= k < |rest| ==> rest[k] == nbrs[if k < i then k else k + 1];
    if MarkedHead(rest) {
      var k :| 0 <= k < |rest| && rest[k].linked && rest[k].myHead;
      assert nbrs[if k < i then k else k + 1].linked && nbrs[if k < i then k else k + 1].myHead;
    }
  }

  lemma JoinKeepsSingle(nbrs: seq<Neighbour>, isHead: nat, n: Neighbour)
    requires SingleHead(nbrs, isHead) && !n.myHead
    ensures SingleHead([n] + nbrs, isHead)
  {
    var more := [n] + nbrs;
    assert forall k :: 0 < k < |more| ==> more[k] == nbrs[k - 1];
    if MarkedHead(more) {
      var k :| 0 <= k < |more| && more[k].linked && more[k].myHead;
      assert nbrs[k - 1].linked && nbrs[k - 1].myHead;
    }
  }

  lemma SelectorsKeepLowBit(b: Bits, e: StatusEvent)
    requires b.isHead <= 3 && !e.Election?
    ensures b.Next(e).isHead <= 3 && Elected(b.Next(e).isHead) == Elected(b.isHead)
  {
  }

  /** The status stays a two-bit number. */
  lemma StatusInRange(s: Node, e: Event)
    requires s.bits.isHead <= 3
    ensures Next(s, e).bits.isHead <= 3
  {
    match e
    case Elect(qos) => OnlyLowBit(s.nbrs, qos, s.bits.isHead);
    case Search(qos) => OnlyLowBit(DemotedAll(s.nbrs), qos, s.bits.isHead);
    case Leave(i, qos) =>
      if i < |s.nbrs| {
        OnlyLowBit(DemotedAll(Without(s.nbrs, i)), qos, s.bits.isHead);
      }
    case Selectors(e) =>
      if !e.Election? {
        SelectorsKeepLowBit(s.bits, e);
      }
    case _ =>
  }

  /** One event keeps a single head exactly under its condition. */
  lemma StepExactly(s: Node, e: Event)
    requires s.bits.isHead <= 3 && Single(s)
    ensures Single(Next(s, e)) <==> Keeps(s, e)
  {
    var h := s.bits.isHead;
    match e
    case Elect(qos) => ElectionKeepsSingleHead(s.nbrs, qos, h);
    case Search(qos) => FindHeadExactly(s.nbrs, qos, h);
    case Hello(i, sym, q, head) =>
      if i < |s.nbrs| {
        SameLinkedMarks(s.nbrs, Next(s, e).nbrs, h);
      }
    case LinkUp(i) =>
      if i < |s.nbrs| {
        if s.nbrs[i].linked {
          assert Next(s, e).nbrs == s.nbrs;
        } else {
          LinkUpExactly(s.nbrs, h, i);
        }
      }
    case LinkDown(i) =>
      if i < |s.nbrs| {
        SameLinkedMarks(s.nbrs, Next(s, e).nbrs, h);
      }
    case Join(addr, linked) => JoinKeepsSingle(s.nbrs, h, Neighbour(addr, linked, false, 0, 0, false, false));
    case Leave(i, qos) =>
      if i < |s.nbrs| {
        WithoutKeepsSingle(s.nbrs, h, i);
        if s.nbrs[i].myHead {
          FindHeadExactly(Without(s.nbrs, i), qos, h);
        }
      }
    case Selectors(e) =>
      if !e.Election? {
        SelectorsKeepLowBit(s.bits, e);
      }
  }

  /** The state after a course of events, step by step. */
  function RunBy(next: (Node, Event) -> Node, s: Node, events: seq<Event>): Node
    decreases |events|
  {
    if events == [] then s else RunBy(next, next(s, events[0]), events[1..])
  }

  function Run(s: Node, events: seq<Event>): Node {
    RunBy(Next, s, events)
  }

  /** There is at most one head at every point of the run. */
  predicate AlwaysSingle(s: Node, events: seq<Event>)
    decreases |events|
  {
    Single(s) && (events == [] || AlwaysSingle(Next(s, events[0]), events[1..]))
  }

  predicate AllKept(s: Node, events: seq<Event>)
    decreases |events|
  {
    events == [] || (Keeps(s, events[0]) && AllKept(Next(s, events[0]), events[1..]))
  }

  /** Over every course of events that starts with at most one head, there is never more than one
      exactly if every search and every returning link meets its condition. */
  lemma {:induction false} SingleHeadForever(s: Node, events: seq<Event>)
    requires s.bits.isHead <= 3 && Single(s)
    ensures AlwaysSingle(s, events) <==> AllKept(s, events)
    decreases |events|
  {
    if events != [] {
      StepExactly(s, events[0]);
      StatusInRange(s, events[0]);
      if Keeps(s, events[0]) {
        SingleHeadForever(Next(s, events[0]), events[1..]);
      }
    }
  }

  // ---------------------------------------------------------------- runs that end with two heads

  const START := Node([], Bits(0, [], []))

  lemma RunNext(next: (Node, Event) -> Node, s: Node, e: Event, events: seq<Event>)
    ensures RunBy(next, s, [e] + events) == RunBy(next, next(s, e), events)
  {
    assert ([e] + events)[1..] == events;
  }

  lemma RunThreeBy(next: (Node, Event) -> Node, s: Node, a: Event, b: Event, c: Event, events: seq<Event>)
    ensures RunBy(next, s, [a, b, c] + events) == RunBy(next, next(next(next(s, a), b), c), events)
  {
    var last := [c] + events;
    var later := [b] + last;
    assert [a, b, c] + events == [a] + later;
    RunNext(next, s, a, later);
    RunNext(next, next(s, a), b, last);
    RunNext(next, next(next(s, a), b), c, events);
  }

  lemma RunThree(s: Node, a: Event, b: Event, c: Event, events: seq<Event>)
    ensures Run(s, [a, b, c] + events) == Run(Next(Next(Next(s, a), b), c), events)
  {
    RunThreeBy(Next, s, a, b, c, events);
  }

  /** A search marks the best offer beside the head already followed. */
  lemma SearchMakesTwo()
    ensures !Single(Run(START, [Join(1, true), Hello(0, true, 10, 1), Elect(0)] + [Join(2, true), Hello(0, true, 20, 1), Search(0)]))
  {
    var a := Neighbour(1, true, true, 10, 1, false, false);
    var b := Neighbour(2, true, true, 20, 1, false, false);
    var mine := a.(myHead := true, isMpr := true);
    var none := Bits(0, [], []);
    var later := [Join(2, true), Hello(0, true, 20, 1), Search(0)];
    RunThree(START, Join(1, true), Hello(0, true, 10, 1), Elect(0), later);
    assert Next(Next(START, Join(1, true)), Hello(0, true, 10, 1)) == Node([a], none);
    assert Next(Node([a], none), Elect(0)) == Node([mine], none);
    assert later == later + [];
    RunThree(Node([mine], none), Join(2, true), Hello(0, true, 20, 1), Search(0), []);
    assert Next(Next(Node([mine], none), Join(2, true)), Hello(0, true, 20, 1)) == Node([b, mine], none);
    assert Offer([b, mine], 2) == Some(0);
    var t := Next(Node([b, mine], none), Search(0));
    assert t.nbrs[0].linked && t.nbrs[0].myHead && t.nbrs[1].linked && t.nbrs[1].myHead;
  }

  /** A head without a usable link keeps its mark; the node elects itself, and the link becomes usable again. */
  lemma ReturningHead()
    ensures !Single(Run(START, [Join(1, true), Hello(0, true, 50, 0), Elect(10)] + [LinkDown(0), Elect(10), LinkUp(0)]))
  {
    var a := Neighbour(1, true, true, 50, 0, false, false);
    var mine := a.(myHead := true, isMpr := true);
    var none := Bits(0, [], []);
    var later := [LinkDown(0), Elect(10), LinkUp(0)];
    RunThree(START, Join(1, true), Hello(0, true, 50, 0), Elect(10), later);
    assert Next(Next(START, Join(1, true)), Hello(0, true, 50, 0)) == Node([a], none);
    assert Next(Node([a], none), Elect(10)) == Node([mine], none);
    assert later == later + [];
    RunThree(Node([mine], none), LinkDown(0), Elect(10), LinkUp(0), []);
    var lost := [mine.(linked := false)];
    assert Next(Node([mine], none), LinkDown(0)) == Node(lost, none);
    SelfElected(lost, none);
    var back := Next(Node(lost, Bits(1, [], [])), LinkUp(0));
    assert back.nbrs[0].linked && back.nbrs[0].myHead;
  }

  lemma SelfElected(lost: seq<Neighbour>, none: Bits)
    requires |lost| == 1 && !lost[0].linked && none == Bits(0, [], [])
    ensures Next(Node(lost, none), Elect(10)) == Node(lost, Bits(1, [], []))
  {
    assert Top(lost, 10, 1) == None && MaxQos(lost, 10, 1) == 10 && Previous(lost, 1) == None;
  }
}

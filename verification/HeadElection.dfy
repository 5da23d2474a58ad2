/** Cluster-head election by quality of service, and the two bits of a node's own head status. */
module HeadElection {
  import opened Basics

  /** A neighbour table entry. `linked` says whether some link to it has a usable cost, `isHead` is the
      status it announces, and `myHead` marks the head this node follows. */
  datatype Neighbour = Neighbour(addr: nat, linked: bool, sym: bool, qos: nat, isHead: nat, myHead: bool, isMpr: bool)

  predicate Candidate(n: Neighbour) {
    n.linked && n.sym
  }

  predicate DistinctAddresses(nbrs: seq<Neighbour>) {
    forall i, j :: 0 <= i < j < |nbrs| ==> nbrs[i].addr != nbrs[j].addr
  }

  predicate Foreign(nbrs: seq<Neighbour>, own: nat) {
    forall i :: 0 <= i < |nbrs| ==> nbrs[i].addr != own
  }

  // ---------------------------------------------------------------- the outcome of an election

  /** The best quality among the node itself and the first `n` neighbours. */
  function MaxQos(nbrs: seq<Neighbour>, own: nat, n: nat): (m: nat)
    requires n <= |nbrs|
    ensures m >= own && forall i :: 0 <= i < n && Candidate(nbrs[i]) ==> nbrs[i].qos <= m
  {
    if n == 0 then own
    else
      var m := MaxQos(nbrs, own, n - 1);
      if Candidate(nbrs[n - 1]) && nbrs[n - 1].qos > m then nbrs[n - 1].qos else m
  }

  /** The first neighbour with the best quality, if it is better than the node itself. */
  function Top(nbrs: seq<Neighbour>, own: nat, n: nat): (t: Option<nat>)
    requires n <= |nbrs|
    ensures t.None? ==> MaxQos(nbrs, own, n) == own
    ensures t.Some? ==> t.value < n && Candidate(nbrs[t.value]) && nbrs[t.value].qos == MaxQos(nbrs, own, n) > own
  {
    if n == 0 then None
    else if Candidate(nbrs[n - 1]) && nbrs[n - 1].qos > MaxQos(nbrs, own, n - 1) then Some(n - 1)
    else Top(nbrs, own, n - 1)
  }

  lemma {:induction false} TopIsFirst(nbrs: seq<Neighbour>, own: nat, n: nat)
    requires n <= |nbrs| && Top(nbrs, own, n).Some?
    ensures var t := Top(nbrs, own, n).value;
      forall i :: 0 <= i < t && nbrs[i].linked && nbrs[i].sym ==> nbrs[i].qos < nbrs[t].qos
  {
    if Top(nbrs, own, n) != Some(n - 1) {
      TopIsFirst(nbrs, own, n - 1);
    } else {
      assert forall i :: 0 <= i < n - 1 && nbrs[i].linked && nbrs[i].sym ==> Candidate(nbrs[i]);
    }
  }

  /** The current head among the first `n` neighbours; the last one counts. */
  function Previous(nbrs: seq<Neighbour>, n: nat): (p: Option<nat>)
    requires n <= |nbrs|
    ensures p.None? ==> forall i :: 0 <= i < n && Candidate(nbrs[i]) ==> !nbrs[i].myHead
    ensures p.Some? ==> p.value < n && Candidate(nbrs[p.value]) && nbrs[p.value].myHead
    ensures p.Some? ==> forall i :: p.value < i < n && Candidate(nbrs[i]) ==> !nbrs[i].myHead
  {
    if n == 0 then None
    else if Candidate(nbrs[n - 1]) && nbrs[n - 1].myHead then Some(n - 1)
    else Previous(nbrs, n - 1)
  }

  function Cleared(n: Neighbour): Neighbour {
    if n.linked then n.(myHead := false, isMpr := false) else n
  }

  function ClearedAll(nbrs: seq<Neighbour>): (r: seq<Neighbour>)
    ensures |r| == |nbrs| && forall i :: 0 <= i < |r| ==> r[i] == Cleared(nbrs[i])
  {
    seq(|nbrs|, i requires 0 <= i < |nbrs| => Cleared(nbrs[i]))
  }

  /** The table with at most one neighbour marked as head and relay. */
  function Marked(nbrs: seq<Neighbour>, head: Option<nat>): seq<Neighbour>
    requires head.Some? ==> head.value < |nbrs|
  {
    if head.None? then nbrs else nbrs[head.value := nbrs[head.value].(myHead := true, isMpr := true)]
  }

  /** The low bit: this node was elected head. */
  predicate Elected(isHead: nat) {
    isHead % 2 == 1
  }

  /** The quality of the head in office, if any, among the first `n` neighbours and the node. */
  function QosInOffice(nbrs: seq<Neighbour>, qos: nat, isHead: nat, n: nat): nat
    requires n <= |nbrs|
  {
    var p := Previous(nbrs, n);
    if p.Some? then nbrs[p.value].qos else if Elected(isHead) then qos else 0
  }

  function PreviousQos(nbrs: seq<Neighbour>, qos: nat, isHead: nat): nat {
    QosInOffice(nbrs, qos, isHead, |nbrs|)
  }

  /** The head in office stays: it comes within ten percent of the best. */
  predicate Stays(nbrs: seq<Neighbour>, qos: nat, isHead: nat) {
    && (Previous(nbrs, |nbrs|).Some? || Elected(isHead))
    && 9 * MaxQos(nbrs, qos, |nbrs|) <= 10 * PreviousQos(nbrs, qos, isHead)
  }

  /** The neighbour that is head after an election. */
  function Winner(nbrs: seq<Neighbour>, qos: nat, isHead: nat): (w: Option<nat>)
    ensures w.Some? ==> w.value < |nbrs| && Candidate(nbrs[w.value])
  {
    if MaxQos(nbrs, qos, |nbrs|) == 0 then None
    else if Stays(nbrs, qos, isHead) then Previous(nbrs, |nbrs|)
    else Top(nbrs, qos, |nbrs|)
  }

  /** This node's own status after an election. */
  function OwnStatus(nbrs: seq<Neighbour>, qos: nat, isHead: nat): nat {
    var max := MaxQos(nbrs, qos, |nbrs|);
    if max == 0 || Stays(nbrs, qos, isHead) then isHead
    else if qos == max then (if isHead != 1 && isHead < 3 then isHead + 1 else isHead)
    else if qos == PreviousQos(nbrs, qos, isHead) && (isHead == 1 || isHead == 3) then isHead - 1
    else isHead
  }

  function Outcome(nbrs: seq<Neighbour>, qos: nat, isHead: nat): seq<Neighbour> {
    Marked(ClearedAll(nbrs), Winner(nbrs, qos, isHead))
  }

  // ---------------------------------------------------------------- the election itself

  /** `olsr_lookup_neighbor_table`. */
  method Lookup(nbrs: array<Neighbour>, addr: nat) returns (found: Option<nat>)
    ensures found.Some? ==> found.value < nbrs.Length && nbrs[found.value].addr == addr
    ensures found.None? ==> forall i :: 0 <= i < nbrs.Length ==> nbrs[i].addr != addr
  {
    var i := 0;
    while i < nbrs.Length
      invariant 0 <= i <= nbrs.Length && forall k :: 0 <= k < i ==> nbrs[k].addr != addr
    {
      if nbrs[i].addr == addr {
        return Some(i);
      }
      i := i + 1;
    }
    return None;
  }

  /** The address found by the scan: that of a neighbour, or the node's own. */
  predicate IsAddressOf(nbrs: seq<Neighbour>, own: nat, addr: nat, which: Option<nat>) {
    if which.Some? then which.value < |nbrs| && addr == nbrs[which.value].addr else addr == own
  }

  /** What the scan has found so far: the best quality and the head in office, with their addresses. */
  datatype Findings = Findings(maxQos: nat, maxIp: nat, prevQos: nat, prevIp: nat)

  /** One more neighbour. */
  function Seen(f: Findings, n: Neighbour): Findings {
    if !Candidate(n) then f
    else
      var g := if n.myHead then f.(prevIp := n.addr, prevQos := n.qos) else f;
      if n.qos > g.maxQos then g.(maxQos := n.qos, maxIp := n.addr) else g
  }

  /** The findings are right for the first `n` neighbours. */
  predicate Scanned(nbrs: seq<Neighbour>, own: nat, qos: nat, isHead: nat, n: nat, f: Findings)
    requires n <= |nbrs|
  {
    && f.maxQos == MaxQos(nbrs, qos, n) && IsAddressOf(nbrs, own, f.maxIp, Top(nbrs, qos, n))
    && f.prevQos == QosInOffice(nbrs, qos, isHead, n) && IsAddressOf(nbrs, own, f.prevIp, Previous(nbrs, n))
  }

  lemma ScanNext(nbrs: seq<Neighbour>, own: nat, qos: nat, isHead: nat, i: nat, f: Findings)
    requires i < |nbrs| && Scanned(nbrs, own, qos, isHead, i, f)
    ensures Scanned(nbrs, own, qos, isHead, i + 1, Seen(f, nbrs[i]))
  {
  }

  /** The body of the scan. */
  method Examine(n: Neighbour, f: Findings) returns (n': Neighbour, f': Findings)
    ensures n' == Cleared(n) && f' == Seen(f, n)
  {
    n', f' := n, f;
    if n.linked {
      n' := n.(isMpr := false, myHead := false);
      if n.sym {
        if n.myHead {
          f' := f'.(prevIp := n.addr, prevQos := n.qos);
        }
        if n.qos > f'.maxQos {
          f' := f'.(maxQos := n.qos, maxIp := n.addr);
        }
      }
    }
  }

  /** The scan over the neighbour table. */
  method Scan(nbrs: array<Neighbour>, own: nat, qos: nat, isHead: nat) returns (f: Findings)
    modifies nbrs
    ensures nbrs[..] == ClearedAll(old(nbrs[..]))
    ensures Scanned(old(nbrs[..]), own, qos, isHead, nbrs.Length, f)
  {
    f := Findings(qos, own, if isHead % 2 == 1 then qos else 0, own);
    ghost var before := nbrs[..];
    var i := 0;
    while i < nbrs.Length
      invariant 0 <= i <= nbrs.Length
      invariant forall k :: 0 <= k < i ==> nbrs[k] == Cleared(before[k])
      invariant forall k :: i <= k < nbrs.Length ==> nbrs[k] == before[k]
      invariant Scanned(before, own, qos, isHead, i, f)
    {
      ScanNext(before, own, qos, isHead, i, f);
      var n, g := Examine(nbrs[i], f);
      nbrs[i], f := n, g;
      i := i + 1;
    }
  }

  lemma FoundByAddress(nbrs: seq<Neighbour>, cleared: seq<Neighbour>, own: nat, addr: nat, which: Option<nat>, found: Option<nat>)
    requires DistinctAddresses(nbrs) && Foreign(nbrs, own) && cleared == ClearedAll(nbrs)
    requires IsAddressOf(nbrs, own, addr, which)
    requires found.Some? ==> found.value < |nbrs| && cleared[found.value].addr == addr
    requires found.None? ==> forall i :: 0 <= i < |nbrs| ==> cleared[i].addr != addr
    ensures found == which
  {
    if which.Some? {
      assert cleared[which.value].addr == addr;
    }
  }

  /** A neighbour becomes the head this node follows, and a relay. */
  method Mark(nbrs: array<Neighbour>, at: Option<nat>)
    requires at.Some? ==> at.value < nbrs.Length
    modifies nbrs
    ensures nbrs[..] == Marked(old(nbrs[..]), at)
  {
    if at.Some? {
      nbrs[at.value] := nbrs[at.value].(isMpr := true, myHead := true);
    }
  }

  /** `olsr_calculate_head`. The comparison with the 0.9-fold maximum is exact on 16-bit values. */
  method CalculateHead(nbrs: array<Neighbour>, own: nat, qos: nat, isHead: nat) returns (isHead': nat)
    requires DistinctAddresses(nbrs[..]) && Foreign(nbrs[..], own) && isHead <= 3
    modifies nbrs
    ensures nbrs[..] == Outcome(old(nbrs[..]), qos, isHead)
    ensures isHead' == OwnStatus(old(nbrs[..]), qos, isHead)
  {
    ghost var before := nbrs[..];
    var f := Scan(nbrs, own, qos, isHead);
    var maxQos, maxIp, prevQos, prevIp := f.maxQos, f.maxIp, f.prevQos, f.prevIp;
    if maxQos == 0 {
      return isHead;
    }
    var prev := Lookup(nbrs, prevIp);
    FoundByAddress(before, nbrs[..], own, prevIp, Previous(before, |before|), prev);
    if prev.Some? || isHead == 1 || isHead == 3 {
      if 9 * maxQos <= 10 * prevQos {
        Mark(nbrs, prev);
        return isHead;
      }
    }
    var best := Lookup(nbrs, maxIp);
    FoundByAddress(before, nbrs[..], own, maxIp, Top(before, qos, |before|), best);
    Mark(nbrs, best);
    isHead' := NewStatus(qos, maxQos, prevQos, isHead);
  }

  /** The end of it: the node's own status when the head in office does not stay. */
  method NewStatus(qos: nat, maxQos: nat, prevQos: nat, isHead: nat) returns (isHead': nat)
    requires isHead <= 3
    ensures isHead' == if qos == maxQos then (if isHead != 1 && isHead < 3 then isHead + 1 else isHead)
                       else if qos == prevQos && (isHead == 1 || isHead == 3) then isHead - 1 else isHead
  {
    isHead' := isHead;
    if qos == maxQos && isHead' != 1 && isHead' < 3 {
      isHead' := isHead' + 1;
    }
    if qos != maxQos && qos == prevQos && (isHead' == 1 || isHead' == 3) {
      isHead' := isHead' - 1;
    }
  }

  // ---------------------------------------------------------------- what an election guarantees

  /** At most one linked neighbour is marked head afterwards, and it is symmetric. */
  lemma OneSymmetricHead(nbrs: seq<Neighbour>, qos: nat, isHead: nat, i: nat, j: nat)
    requires i < |nbrs| && j < |nbrs|
    ensures var after := Outcome(nbrs, qos, isHead);
      && |after| == |nbrs|
      && (after[i].linked && after[i].myHead ==> after[i].sym)
      && (after[i].linked && after[i].myHead && after[j].linked && after[j].myHead ==> i == j)
  {
  }

  /** Heads relay: a linked neighbour is a relay after an election exactly if it is marked head, and then it is
      symmetric. Nothing else in the table changes, and nothing at all for one without a usable link. */
  lemma HeadsRelay(nbrs: seq<Neighbour>, qos: nat, isHead: nat, i: nat)
    requires i < |nbrs|
    ensures var n, after := nbrs[i], Outcome(nbrs, qos, isHead);
      && |after| == |nbrs|
      && after[i] == n.(myHead := after[i].myHead, isMpr := after[i].isMpr)
      && (n.linked ==> (after[i].isMpr <==> after[i].myHead))
      && (!n.linked ==> after[i].isMpr == n.isMpr && after[i].myHead == n.myHead)
  {
  }

  /** The table entry `i`, or the node itself for `None`, is a head after the election. */
  predicate HeadAfter(nbrs: seq<Neighbour>, qos: nat, isHead: nat, who: Option<nat>) {
    if who.None? then Elected(OwnStatus(nbrs, qos, isHead))
    else who.value < |nbrs| && Outcome(nbrs, qos, isHead)[who.value].myHead && Candidate(nbrs[who.value])
  }

  function QosOf(nbrs: seq<Neighbour>, qos: nat, who: Option<nat>): nat
    requires who.Some? ==> who.value < |nbrs|
  {
    if who.None? then qos else nbrs[who.value].qos
  }

  /** Unless every quality is zero there is a head within ten percent of the best. */
  lemma GoodEnoughHead(nbrs: seq<Neighbour>, qos: nat, isHead: nat) returns (who: Option<nat>)
    requires isHead <= 3 && MaxQos(nbrs, qos, |nbrs|) > 0
    ensures HeadAfter(nbrs, qos, isHead, who)
    ensures 10 * QosOf(nbrs, qos, who) >= 9 * MaxQos(nbrs, qos, |nbrs|)
    ensures 10 * QosOf(nbrs, qos, who) >= 9 * qos
    ensures forall i :: 0 <= i < |nbrs| && nbrs[i].linked && nbrs[i].sym ==> 10 * QosOf(nbrs, qos, who) >= 9 * nbrs[i].qos
  {
    who := if Stays(nbrs, qos, isHead) then Previous(nbrs, |nbrs|) else Top(nbrs, qos, |nbrs|);
    assert forall i :: 0 <= i < |nbrs| && nbrs[i].linked && nbrs[i].sym ==> Candidate(nbrs[i]);
  }

  /** Hysteresis: the neighbour in office stays marked exactly if some quality is positive and its own
      comes within ten percent of the best, so an election in which all qualities are zero drops it
      without any margin. The node itself loses office only to one more than a ninth better, and
      always then if no neighbour is in office. */
  lemma SwitchNeedsMargin(nbrs: seq<Neighbour>, qos: nat, isHead: nat)
    requires isHead <= 3
    ensures var max := MaxQos(nbrs, qos, |nbrs|); var p := Previous(nbrs, |nbrs|);
      && (p.Some? ==> (Outcome(nbrs, qos, isHead)[p.value].myHead <==> max > 0 && 9 * max <= 10 * nbrs[p.value].qos))
      && (Elected(isHead) && !Elected(OwnStatus(nbrs, qos, isHead)) ==> 9 * max > 10 * qos)
      && (p.None? && Elected(isHead) && 9 * max > 10 * qos ==> !Elected(OwnStatus(nbrs, qos, isHead)))
  {
  }

  /** An election changes only the low bit of the status, and the status stays a two-bit number. */
  lemma OnlyLowBit(nbrs: seq<Neighbour>, qos: nat, isHead: nat)
    requires isHead <= 3
    ensures OwnStatus(nbrs, qos, isHead) <= 3 && OwnStatus(nbrs, qos, isHead) / 2 == isHead / 2
  {
  }

  lemma {:induction false} MaxQosUnchanged(a: seq<Neighbour>, b: seq<Neighbour>, qos: nat, n: nat)
    requires |a| == |b| && n <= |a|
    requires forall i :: 0 <= i < |a| ==> Candidate(a[i]) == Candidate(b[i]) && a[i].qos == b[i].qos
    ensures MaxQos(a, qos, n) == MaxQos(b, qos, n)
  {
    if n > 0 {
      MaxQosUnchanged(a, b, qos, n - 1);
    }
  }

  /** The winner of an election is confirmed by the next one. */
  lemma SecondWinner(nbrs: seq<Neighbour>, qos: nat, isHead: nat)
    requires isHead <= 3
    ensures var after, status := Outcome(nbrs, qos, isHead), OwnStatus(nbrs, qos, isHead);
      Winner(after, qos, status) == Winner(nbrs, qos, isHead) && OwnStatus(after, qos, status) == status
  {
    var after, status := Outcome(nbrs, qos, isHead), OwnStatus(nbrs, qos, isHead);
    MaxQosUnchanged(nbrs, after, qos, |nbrs|);
    var w := Winner(nbrs, qos, isHead);
    assert forall i :: 0 <= i < |nbrs| ==> (Candidate(after[i]) && after[i].myHead <==> w == Some(i));
    assert Previous(after, |after|) == w;
    if MaxQos(nbrs, qos, |nbrs|) > 0 {
      assert Stays(after, qos, status);
    }
  }

  /** Electing again with the same qualities changes nothing. */
  lemma ElectionIdempotent(nbrs: seq<Neighbour>, qos: nat, isHead: nat)
    requires isHead <= 3
    ensures var after, status := Outcome(nbrs, qos, isHead), OwnStatus(nbrs, qos, isHead);
      Outcome(after, qos, status) == after && OwnStatus(after, qos, status) == status
  {
    var after, status := Outcome(nbrs, qos, isHead), OwnStatus(nbrs, qos, isHead);
    MaxQosUnchanged(nbrs, after, qos, |nbrs|);
    var w := Winner(nbrs, qos, isHead);
    assert forall i :: 0 <= i < |nbrs| ==> (Candidate(after[i]) && after[i].myHead <==> w == Some(i));
    assert Previous(after, |after|) == w;
    SecondWinner(nbrs, qos, isHead);
  }

  /** Some linked neighbour is marked head. */
  predicate MarkedHead(nbrs: seq<Neighbour>) {
    exists i :: 0 <= i < |nbrs| && nbrs[i].linked && nbrs[i].myHead
  }

  /** At most one head, the node itself included. */
  predicate SingleHead(nbrs: seq<Neighbour>, isHead: nat) {
    && (Elected(isHead) ==> !MarkedHead(nbrs))
    && forall i, j :: 0 <= i < j < |nbrs| && nbrs[i].linked && nbrs[j].linked ==> !(nbrs[i].myHead && nbrs[j].myHead)
  }

  /** Exactly when an election leaves both the node and a neighbour in office: the node was head, and
      either the neighbour it follows stays, or the node is not the one whose quality counted as the
      previous head's. */
  lemma BothInOffice(nbrs: seq<Neighbour>, qos: nat, isHead: nat)
    requires isHead <= 3
    ensures Winner(nbrs, qos, isHead).Some? <==> MarkedHead(Outcome(nbrs, qos, isHead))
    ensures !SingleHead(Outcome(nbrs, qos, isHead), OwnStatus(nbrs, qos, isHead)) <==>
            Winner(nbrs, qos, isHead).Some? && Elected(isHead)
            && (Stays(nbrs, qos, isHead) || qos != PreviousQos(nbrs, qos, isHead))
  {
    var after, w := Outcome(nbrs, qos, isHead), Winner(nbrs, qos, isHead);
    assert forall i :: 0 <= i < |nbrs| && after[i].linked && after[i].myHead ==> w == Some(i);
    if w.Some? {
      assert after[w.value].linked && after[w.value].myHead;
    }
  }

  lemma ElectionKeepsSingleHead(nbrs: seq<Neighbour>, qos: nat, isHead: nat)
    requires isHead <= 3 && SingleHead(nbrs, isHead)
    ensures SingleHead(Outcome(nbrs, qos, isHead), OwnStatus(nbrs, qos, isHead))
  {
    BothInOffice(nbrs, qos, isHead);
    var p := Previous(nbrs, |nbrs|);
    if p.Some? {
      assert nbrs[p.value].linked && nbrs[p.value].myHead;
    }
  }

  // ---------------------------------------------------------------- the two bits of the status

  /** The status with the nodes that chose this one as head and as relay. */
  class Status {
    var isHead: nat
    var headSelectors: seq<nat>
    var mprSelectors: seq<nat>

    constructor ()
      ensures Value() == Bits(0, [], [])
    {
      isHead, headSelectors, mprSelectors := 0, [], [];
    }

    function Value(): Bits
      reads this
    {
      Bits(isHead, headSelectors, mprSelectors)
    }

    /** A neighbour announces this node as its head. */
    method HeadChosen(addr: nat)
      modifies this
      ensures Value() == old(Value()).Next(HeadChosenBy(addr))
    {
      if addr !in headSelectors {
        headSelectors := [addr] + headSelectors;
      }
      if isHead < 3 && isHead != 2 {
        isHead := isHead + 2;
      }
    }

    /** A neighbour announces this node as its relay. */
    method RelayChosen(addr: nat)
      modifies this
      ensures Value() == old(Value()).Next(RelayChosenBy(addr))
    {
      if addr !in mprSelectors {
        mprSelectors := [addr] + mprSelectors;
      }
    }

    /** The timer of the `i`-th relay selector ran out. */
    method RelaySelectorExpired(i: nat)
      requires i < |mprSelectors|
      modifies this
      ensures Value() == old(Value()).Next(RelayExpired(i))
    {
      mprSelectors := mprSelectors[..i] + mprSelectors[i + 1..];
      if isHead == 2 || isHead == 3 {
        if mprSelectors == [] {
          isHead := isHead - 2;
        }
      }
    }

    /** The timer of the `i`-th head selector ran out. */
    method HeadSelectorExpired(i: nat)
      requires i < |headSelectors|
      modifies this
      ensures Value() == old(Value()).Next(HeadExpired(i))
    {
      headSelectors := headSelectors[..i] + headSelectors[i + 1..];
      if isHead == 2 || isHead == 3 {
        if headSelectors == [] {
          isHead := isHead - 2;
        }
      }
    }

    /** An election among `nbrs` with own quality `qos`. */
    method Elect(nbrs: array<Neighbour>, own: nat, qos: nat)
      requires DistinctAddresses(nbrs[..]) && Foreign(nbrs[..], own) && isHead <= 3
      modifies this, nbrs
      ensures Value() == old(Value()).Next(Election(old(nbrs[..]), qos))
      ensures nbrs[..] == Outcome(old(nbrs[..]), qos, old(isHead))
    {
      isHead := CalculateHead(nbrs, own, qos, isHead);
    }
  }

  datatype StatusEvent =
    | Election(nbrs: seq<Neighbour>, qos: nat)
    | HeadChosenBy(addr: nat) | RelayChosenBy(addr: nat)
    | RelayExpired(index: nat) | HeadExpired(index: nat)

  datatype Bits = Bits(isHead: nat, headSelectors: seq<nat>, mprSelectors: seq<nat>) {
    function Next(e: StatusEvent): Bits {
      match e
      case Election(nbrs, qos) => this.(isHead := OwnStatus(nbrs, qos, isHead))
      case HeadChosenBy(a) =>
        this.(isHead := if isHead < 2 then isHead + 2 else isHead,
              headSelectors := if a in headSelectors then headSelectors else [a] + headSelectors)
      case RelayChosenBy(a) =>
        this.(mprSelectors := if a in mprSelectors then mprSelectors else [a] + mprSelectors)
      case RelayExpired(i) =>
        var rest := if i < |mprSelectors| then Without(mprSelectors, i) else mprSelectors;
        this.(mprSelectors := rest, isHead := if rest == [] then Dropped(isHead) else isHead)
      case HeadExpired(i) =>
        var rest := if i < |headSelectors| then Without(headSelectors, i) else headSelectors;
        this.(headSelectors := rest, isHead := if rest == [] then Dropped(isHead) else isHead)
    }

    /** The high bit: this node was chosen as head. */
    predicate Chosen() {
      isHead >= 2
    }
  }

  function Dropped(isHead: nat): nat {
    if isHead == 2 || isHead == 3 then isHead - 2 else isHead
  }

  function AfterEvents(events: seq<StatusEvent>): Bits {
    if events == [] then Bits(0, [], [])
    else AfterEvents(events[..|events| - 1]).Next(events[|events| - 1])
  }

  /** One event: the status stays a two-bit number whose high bit needs a head selector; the low bit
      is changed by elections only, and they change nothing else. */
  lemma StatusStep(b: Bits, e: StatusEvent)
    requires b.isHead <= 3 && (b.Chosen() ==> b.headSelectors != [])
    ensures var c := b.Next(e); c.isHead <= 3 && (c.Chosen() ==> c.headSelectors != [])
    ensures if e.Election? then b.Next(e).Chosen() == b.Chosen() else Elected(b.Next(e).isHead) == Elected(b.isHead)
  {
    if e.Election? {
      OnlyLowBit(e.nbrs, e.qos, b.isHead);
    }
  }

  /** Over every run the status is a two-bit number, and its high bit is set only while some node
      has this one as head. */
  lemma {:induction false} StatusBits(events: seq<StatusEvent>)
    ensures var b := AfterEvents(events); b.isHead <= 3 && (b.Chosen() ==> b.headSelectors != [])
  {
    if events != [] {
      StatusBits(events[..|events| - 1]);
      StatusStep(AfterEvents(events[..|events| - 1]), events[|events| - 1]);
    }
  }

  /** Who is a head selector after an event: whoever just chose this node as head, and whoever was one before and
      whose timer did not just run out; and the same for relay selectors. Nobody is listed twice. */
  lemma SelectorsStep(b: Bits, e: StatusEvent, a: nat)
    requires NoRepeats(b.headSelectors) && NoRepeats(b.mprSelectors)
    requires e.RelayExpired? ==> e.index < |b.mprSelectors|
    requires e.HeadExpired? ==> e.index < |b.headSelectors|
    ensures var c := b.Next(e);
      && NoRepeats(c.headSelectors) && NoRepeats(c.mprSelectors)
      && (a in c.headSelectors <==>
            e == HeadChosenBy(a) || (a in b.headSelectors && !(e.HeadExpired? && b.headSelectors[e.index] == a)))
      && (a in c.mprSelectors <==>
            e == RelayChosenBy(a) || (a in b.mprSelectors && !(e.RelayExpired? && b.mprSelectors[e.index] == a)))
  {
    match e
    case HeadChosenBy(x) => Enlisted(b.headSelectors, x, a);
    case RelayChosenBy(x) => Enlisted(b.mprSelectors, x, a);
    case HeadExpired(i) => Expired(b.headSelectors, i, a);
    case RelayExpired(i) => Expired(b.mprSelectors, i, a);
    case Election(_, _) =>
  }

  lemma Enlisted(list: seq<nat>, x: nat, a: nat)
    requires NoRepeats(list)
    ensures var more := if x in list then list else [x] + list; NoRepeats(more) && (a in more <==> a == x || a in list)
  {
  }

  lemma Expired(list: seq<nat>, i: nat, a: nat)
    requires NoRepeats(list) && i < |list|
    ensures NoRepeats(Without(list, i)) && (a in Without(list, i) <==> a in list && list[i] != a)
  {
    if a in list && list[i] != a {
      WithoutMember(list, i, a);
    }
  }

  /** A step breaks the agreement of the high bit with the head selectors exactly when the last relay
      selector expires while some node still has this one as head. */
  lemma HighBitAgrees(b: Bits, e: StatusEvent)
    requires b.isHead <= 3 && (b.Chosen() <==> b.headSelectors != [])
    requires e.RelayExpired? ==> e.index < |b.mprSelectors|
    requires e.HeadExpired? ==> e.index < |b.headSelectors|
    ensures var c := b.Next(e);
      (c.Chosen() <==> c.headSelectors != []) <==> !(e.RelayExpired? && |b.mprSelectors| == 1 && b.headSelectors != [])
  {
    if e.Election? {
      OnlyLowBit(e.nbrs, e.qos, b.isHead);
    }
  }

  /** A course of events that ends so. */
  lemma HighBitLost()
    ensures var b := AfterEvents([RelayChosenBy(1), HeadChosenBy(2), RelayExpired(0)]);
      !b.Chosen() && b.headSelectors == [2]
  {
    var x, y, z := RelayChosenBy(1), HeadChosenBy(2), RelayExpired(0);
    assert [x, y, z][..2] == [x, y] && [x, y][..1] == [x] && [x][..0] == [];
    assert AfterEvents([x]) == Bits(0, [], [1]);
    assert AfterEvents([x, y]) == Bits(2, [2], [1]);
  }
}

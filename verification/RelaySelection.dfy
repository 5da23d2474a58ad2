/** Selection of multipoint relays from link costs, `olsr_calculate_lq_mpr`. */
module RelaySelection {
  import opened Basics

  const WILL_ALWAYS := 7

  /** A neighbour table entry. */
  datatype Neighbour = Neighbour(sym: bool, willingness: nat, isHead: bool, myHead: bool,
                                 isMpr: bool, wasMpr: bool, skip: bool)

  /** A neighbour, by its place in the table, through which a two-hop neighbour is reached, and
      the cost of that path. */
  datatype Connector = Connector(nbr: nat, cost: nat)

  /** A two-hop table entry: the neighbour entry with the same address, if there is one, the
      cost of the best link to it, whether the node is two hops away rather than a head further
      off, and the connectors. */
  datatype TwoHop = TwoHop(direct: Option<nat>, directCost: Option<nat>, is2hop: bool, via: seq<Connector>)

  predicate Valid(n: nat, t: TwoHop) {
    && (t.direct.Some? ==> t.direct.value < n)
    && (forall i :: 0 <= i < |t.via| ==> t.via[i].nbr < n)
    && (!t.is2hop ==> t.via != [])
  }

  predicate AllValid(n: nat, ts: seq<TwoHop>) {
    forall i :: 0 <= i < |ts| ==> Valid(n, ts[i])
  }

  // ---------------------------------------------------------------- what is selected

  predicate UsableAt(nbrs: seq<Neighbour>, t: TwoHop, i: nat)
    requires i < |t.via| && Valid(|nbrs|, t)
  {
    nbrs[t.via[i].nbr].sym && t.via[i].cost < LINK_COST_BROKEN
  }

  /** The first of the cheapest usable connectors among the first `n`. */
  function Best(nbrs: seq<Neighbour>, t: TwoHop, n: nat): (r: Option<nat>)
    requires Valid(|nbrs|, t) && n <= |t.via|
    ensures r.None? ==> forall i :: 0 <= i < n ==> !UsableAt(nbrs, t, i)
    ensures r.Some? ==>
      && r.value < n && UsableAt(nbrs, t, r.value)
      && (forall i :: 0 <= i < n && UsableAt(nbrs, t, i) ==> t.via[r.value].cost <= t.via[i].cost)
      && (forall i :: 0 <= i < r.value && UsableAt(nbrs, t, i) ==> t.via[r.value].cost < t.via[i].cost)
  {
    if n == 0 then None
    else
      var b := Best(nbrs, t, n - 1);
      if UsableAt(nbrs, t, n - 1) && (b.None? || t.via[n - 1].cost < t.via[b.value].cost) then Some(n - 1) else b
  }

  /** The two-hop node is itself a symmetric neighbour. */
  predicate IsNear(nbrs: seq<Neighbour>, t: TwoHop)
    requires Valid(|nbrs|, t)
  {
    t.direct.Some? && nbrs[t.direct.value].sym
  }

  /** The cost a path has to beat. */
  function CostToBeat(nbrs: seq<Neighbour>, t: TwoHop): nat
    requires Valid(|nbrs|, t)
  {
    if IsNear(nbrs, t) && t.directCost.Some? then t.directCost.value else LINK_COST_BROKEN
  }

  /** No relay is wanted: there is no link to compare with, or no path beats it. */
  predicate Skipped(nbrs: seq<Neighbour>, t: TwoHop)
    requires Valid(|nbrs|, t)
  {
    IsNear(nbrs, t) && (t.directCost.None? ||
                        forall i :: 0 <= i < |t.via| ==> t.directCost.value <= t.via[i].cost)
  }

  /** The relay chosen for a two-hop entry: the cheapest connector if it beats the direct link,
      and for a head further off, failing that, simply the first. */
  function Pick(nbrs: seq<Neighbour>, t: TwoHop): Option<nat>
    requires Valid(|nbrs|, t)
  {
    if Skipped(nbrs, t) then None
    else
      var b := Best(nbrs, t, |t.via|);
      if b.Some? && t.via[b.value].cost < CostToBeat(nbrs, t) then Some(t.via[b.value].nbr)
      else if !t.is2hop then Some(t.via[0].nbr)
      else None
  }

  predicate Picked(nbrs: seq<Neighbour>, ts: seq<TwoHop>, i: nat)
    requires AllValid(|nbrs|, ts)
  {
    exists k :: 0 <= k < |ts| && Pick(nbrs, ts[k]) == Some(i)
  }

  predicate Always(n: Neighbour) {
    n.sym && n.willingness == WILL_ALWAYS
  }

  predicate KeptHead(n: Neighbour) {
    (n.isHead || n.myHead) && n.isMpr
  }

  /** The relays after a pass: heads that were relays before, neighbours that are always willing
      and one pick per two-hop entry. */
  predicate Selected(nbrs: seq<Neighbour>, ts: seq<TwoHop>, i: nat)
    requires AllValid(|nbrs|, ts) && i < |nbrs|
  {
    KeptHead(nbrs[i]) || Always(nbrs[i]) || Picked(nbrs, ts, i)
  }

  /** Two tables that agree on everything a selection depends on. */
  predicate SameInputs(a: seq<Neighbour>, b: seq<Neighbour>) {
    |a| == |b| && forall i :: 0 <= i < |a| ==>
      a[i].sym == b[i].sym && a[i].willingness == b[i].willingness && a[i].isHead == b[i].isHead && a[i].myHead == b[i].myHead
  }

  lemma {:induction false} BestSame(a: seq<Neighbour>, b: seq<Neighbour>, t: TwoHop, n: nat)
    requires SameInputs(a, b) && Valid(|a|, t) && n <= |t.via|
    ensures Best(a, t, n) == Best(b, t, n)
  {
    if n > 0 {
      BestSame(a, b, t, n - 1);
    }
  }

  lemma PickSame(a: seq<Neighbour>, b: seq<Neighbour>, t: TwoHop)
    requires SameInputs(a, b) && Valid(|a|, t)
    ensures Pick(a, t) == Pick(b, t)
  {
    BestSame(a, b, t, |t.via|);
  }

  // ---------------------------------------------------------------- the pass over the tables

  /** What the first loop makes of an entry: remember the old status, clear it except for heads,
      take the always willing. */
  function Reset(n: Neighbour): Neighbour {
    n.(wasMpr := n.isMpr, isMpr := KeptHead(n) || Always(n))
  }

  predicate BecomesRelay(n: Neighbour) {
    Always(n) && !n.isMpr
  }

  method ResetRelays(nbrs: array<Neighbour>) returns (changes: bool)
    modifies nbrs
    ensures forall i :: 0 <= i < nbrs.Length ==> nbrs[i] == Reset(old(nbrs[i]))
    ensures changes <==> exists i :: 0 <= i < nbrs.Length && BecomesRelay(old(nbrs[i]))
  {
    changes := false;
    var i := 0;
    while i < nbrs.Length
      invariant 0 <= i <= nbrs.Length
      invariant forall k :: 0 <= k < i ==> nbrs[k] == Reset(old(nbrs[k]))
      invariant forall k :: i <= k < nbrs.Length ==> nbrs[k] == old(nbrs[k])
      invariant changes <==> exists k :: 0 <= k < i && BecomesRelay(old(nbrs[k]))
    {
      var n := nbrs[i];
      n := n.(wasMpr := n.isMpr);
      if !n.isHead && !n.myHead {
        n := n.(isMpr := false);
      }
      if n.sym && n.willingness == WILL_ALWAYS {
        n := n.(isMpr := true);
        if n.isMpr != n.wasMpr {
          changes := true;
        }
      }
      nbrs[i] := n;
      i := i + 1;
    }
  }

  /** Clear the selection marks of the connectors. */
  method ClearMarks(nbrs: array<Neighbour>, t: TwoHop)
    requires Valid(nbrs.Length, t)
    modifies nbrs
    ensures forall i :: 0 <= i < nbrs.Length ==> nbrs[i] == old(nbrs[i]).(skip := nbrs[i].skip)
    ensures forall k :: 0 <= k < |t.via| ==> !nbrs[t.via[k].nbr].skip
  {
    var k := 0;
    while k < |t.via|
      invariant 0 <= k <= |t.via|
      invariant forall i :: 0 <= i < nbrs.Length ==> nbrs[i] == old(nbrs[i]).(skip := nbrs[i].skip)
      invariant forall j :: 0 <= j < k ==> !nbrs[t.via[j].nbr].skip
    {
      nbrs[t.via[k].nbr] := nbrs[t.via[k].nbr].(skip := false);
      k := k + 1;
    }
  }

  /** The scan for the cheapest connector that is symmetric and not yet marked. */
  method FindBest(nbrs: array<Neighbour>, t: TwoHop) returns (best: Option<nat>)
    requires Valid(nbrs.Length, t) && forall k :: 0 <= k < |t.via| ==> !nbrs[t.via[k].nbr].skip
    ensures best == Best(nbrs[..], t, |t.via|)
  {
    best := None;
    var cost, k := LINK_COST_BROKEN, 0;
    while k < |t.via|
      invariant 0 <= k <= |t.via|
      invariant best == Best(nbrs[..], t, k)
      invariant cost == if best.Some? then t.via[best.value].cost else LINK_COST_BROKEN
    {
      var n := nbrs[t.via[k].nbr];
      if n.sym && !n.skip && t.via[k].cost < cost {
        best, cost := Some(k), t.via[k].cost;
      }
      k := k + 1;
    }
  }

  /** Whether some path is cheaper than the direct link. */
  method AnyCheaper(t: TwoHop, cost: nat) returns (found: bool)
    ensures found <==> exists i :: 0 <= i < |t.via| && t.via[i].cost < cost
  {
    var k := 0;
    while k < |t.via|
      invariant 0 <= k <= |t.via|
      invariant forall i :: 0 <= i < k ==> cost <= t.via[i].cost
    {
      if t.via[k].cost < cost {
        return true;
      }
      k := k + 1;
    }
    return false;
  }

  /** Everything but the relay flag and the selection mark is left alone, and no relay is
      dropped. */
  predicate OnlyAdds(a: seq<Neighbour>, b: seq<Neighbour>) {
    |a| == |b| && forall i :: 0 <= i < |a| ==>
      b[i] == a[i].(isMpr := b[i].isMpr, skip := b[i].skip) && (a[i].isMpr ==> b[i].isMpr)
  }

  /** The relay chosen among the connectors against a given cost. */
  function PickAgainst(nbrs: seq<Neighbour>, t: TwoHop, cost: nat): (r: Option<nat>)
    requires Valid(|nbrs|, t)
    ensures r.Some? ==> r.value < |nbrs|
  {
    var b := Best(nbrs, t, |t.via|);
    if b.Some? && t.via[b.value].cost < cost then Some(t.via[b.value].nbr)
    else if !t.is2hop then Some(t.via[0].nbr)
    else None
  }

  function Chosen(nbrs: seq<Neighbour>, pick: Option<nat>): (r: seq<Neighbour>)
    requires pick.Some? ==> pick.value < |nbrs|
    ensures OnlyAdds(nbrs, r)
    ensures forall i :: 0 <= i < |nbrs| ==> (r[i].isMpr <==> nbrs[i].isMpr || pick == Some(i))
  {
    if pick.None? then nbrs else nbrs[pick.value := nbrs[pick.value].(isMpr := true, skip := true)]
  }

  /** The loop over the wanted coverage. It stops at the first relay found, and without one every
      further turn repeats the same search. */
  method SelectAgainst(nbrs: array<Neighbour>, t: TwoHop, cost: nat, coverage: nat) returns (changed: bool)
    requires Valid(nbrs.Length, t) && coverage >= 1
    requires forall k :: 0 <= k < |t.via| ==> !nbrs[t.via[k].nbr].skip
    modifies nbrs
    ensures nbrs[..] == Chosen(old(nbrs[..]), PickAgainst(old(nbrs[..]), t, cost))
    ensures changed <==> var p := PickAgainst(old(nbrs[..]), t, cost); p.Some? && !old(nbrs[..])[p.value].wasMpr
  {
    changed := false;
    var k := 0;
    while k < coverage
      invariant 0 <= k <= coverage
      invariant nbrs[..] == old(nbrs[..]) && !changed
      invariant k > 0 ==> PickAgainst(old(nbrs[..]), t, cost) == None
    {
      var best := FindBest(nbrs, t);
      var i;
      if best.Some? && t.via[best.value].cost < cost {
        i := t.via[best.value].nbr;
      } else if !t.is2hop {
        i := t.via[0].nbr;
      } else {
        k := k + 1;
        continue;
      }
      nbrs[i] := nbrs[i].(isMpr := true, skip := true);
      changed := nbrs[i].isMpr != nbrs[i].wasMpr;
      break;
    }
  }

  lemma PickUnmarked(before: seq<Neighbour>, marked: seq<Neighbour>, t: TwoHop)
    requires SameInputs(before, marked) && Valid(|before|, t)
    ensures Pick(before, t) == if Skipped(before, t) then None else PickAgainst(marked, t, CostToBeat(before, t))
  {
    BestSame(before, marked, t, |t.via|);
  }

  /** The same after the marks are cleared. */
  method SelectUnmarked(nbrs: array<Neighbour>, t: TwoHop, cost: nat, coverage: nat) returns (changed: bool)
    requires Valid(nbrs.Length, t) && coverage >= 1 && !Skipped(nbrs[..], t) && cost == CostToBeat(nbrs[..], t)
    modifies nbrs
    ensures OnlyAdds(old(nbrs[..]), nbrs[..])
    ensures forall i :: 0 <= i < nbrs.Length ==>
              (nbrs[i].isMpr <==> old(nbrs[i].isMpr) || Pick(old(nbrs[..]), t) == Some(i))
    ensures changed <==> var p := Pick(old(nbrs[..]), t); p.Some? && !old(nbrs[..])[p.value].wasMpr
  {
    ghost var before := nbrs[..];
    ClearMarks(nbrs, t);
    PickUnmarked(before, nbrs[..], t);
    changed := SelectAgainst(nbrs, t, cost, coverage);
  }

  /** The body of the second loop, for one two-hop entry. */
  method SelectFor(nbrs: array<Neighbour>, t: TwoHop, coverage: nat) returns (changed: bool)
    requires Valid(nbrs.Length, t) && coverage >= 1
    modifies nbrs
    ensures OnlyAdds(old(nbrs[..]), nbrs[..])
    ensures forall i :: 0 <= i < nbrs.Length ==>
              (nbrs[i].isMpr <==> old(nbrs[i].isMpr) || Pick(old(nbrs[..]), t) == Some(i))
    ensures changed <==> var p := Pick(old(nbrs[..]), t); p.Some? && !old(nbrs[..])[p.value].wasMpr
  {
    var best1hop := LINK_COST_BROKEN;
    if t.direct.Some? && nbrs[t.direct.value].sym {
      if t.directCost.None? {
        return false;
      }
      best1hop := t.directCost.value;
      var cheaper := AnyCheaper(t, best1hop);
      if !cheaper {
        return false;
      }
    }
    changed := SelectUnmarked(nbrs, t, best1hop, coverage);
  }

  // ---------------------------------------------------------------- the whole pass

  predicate PickedBefore(nbrs: seq<Neighbour>, ts: seq<TwoHop>, n: nat, i: nat)
    requires AllValid(|nbrs|, ts) && n <= |ts|
  {
    exists k :: 0 <= k < n && Pick(nbrs, ts[k]) == Some(i)
  }

  /** Some neighbour is a relay now and was none before. */
  predicate Gained(before: seq<Neighbour>, now: seq<Neighbour>)
    requires |before| == |now|
  {
    exists i :: 0 <= i < |now| && now[i].isMpr && !before[i].isMpr
  }

  /** The table after the first loop and `k` two-hop entries. */
  predicate Progress(before: seq<Neighbour>, now: seq<Neighbour>, ts: seq<TwoHop>, k: nat, changes: bool)
    requires AllValid(|before|, ts) && k <= |ts|
  {
    && SameInputs(before, now)
    && (forall i :: 0 <= i < |now| ==> now[i].wasMpr == before[i].isMpr)
    && (forall i :: 0 <= i < |now| ==>
          (now[i].isMpr <==> KeptHead(before[i]) || Always(before[i]) || PickedBefore(before, ts, k, i)))
    && (changes <==> Gained(before, now))
  }

  lemma ProgressAtStart(before: seq<Neighbour>, now: seq<Neighbour>, ts: seq<TwoHop>, changes: bool)
    requires AllValid(|before|, ts) && |now| == |before|
    requires forall i :: 0 <= i < |now| ==> now[i] == Reset(before[i])
    requires changes <==> exists i :: 0 <= i < |before| && BecomesRelay(before[i])
    ensures Progress(before, now, ts, 0, changes)
  {
    if changes {
      var i :| 0 <= i < |before| && BecomesRelay(before[i]);
      assert now[i].isMpr && !before[i].isMpr;
    }
  }

  lemma ProgressStep(before: seq<Neighbour>, now: seq<Neighbour>, next: seq<Neighbour>, ts: seq<TwoHop>, k: nat,
                     changes: bool, changed: bool)
    requires AllValid(|before|, ts) && k < |ts| && Progress(before, now, ts, k, changes)
    requires OnlyAdds(now, next)
    requires forall i :: 0 <= i < |now| ==> (next[i].isMpr <==> now[i].isMpr || Pick(before, ts[k]) == Some(i))
    requires changed <==> var p := Pick(before, ts[k]); p.Some? && !now[p.value].wasMpr
    ensures Progress(before, next, ts, k + 1, changes || changed)
  {
    forall i | 0 <= i < |now|
      ensures PickedBefore(before, ts, k + 1, i) <==> PickedBefore(before, ts, k, i) || Pick(before, ts[k]) == Some(i)
    {
      if Pick(before, ts[k]) == Some(i) {
        assert 0 <= k < k + 1 && Pick(before, ts[k]) == Some(i);
      }
      if PickedBefore(before, ts, k, i) {
        var j :| 0 <= j < k && Pick(before, ts[j]) == Some(i);
        assert 0 <= j < k + 1;
      }
    }
    GainedStep(before, now, next, Pick(before, ts[k]));
  }

  lemma GainedStep(before: seq<Neighbour>, now: seq<Neighbour>, next: seq<Neighbour>, p: Option<nat>)
    requires |before| == |now| == |next| && (p.Some? ==> p.value < |now|)
    requires forall i :: 0 <= i < |now| ==> (next[i].isMpr <==> now[i].isMpr || p == Some(i))
    ensures Gained(before, next) <==> Gained(before, now) || (p.Some? && !before[p.value].isMpr)
  {
    if Gained(before, now) {
      var i :| 0 <= i < |now| && now[i].isMpr && !before[i].isMpr;
      assert next[i].isMpr;
    }
    if p.Some? && !before[p.value].isMpr {
      assert next[p.value].isMpr;
    }
  }

  /** `olsr_calculate_lq_mpr`: exactly the selected neighbours are relays afterwards, and a change
      is reported exactly if some neighbour newly became one. */
  method CalculateLqMpr(nbrs: array<Neighbour>, ts: seq<TwoHop>, ownHead: nat, coverage: nat) returns (changes: bool)
    requires AllValid(nbrs.Length, ts) && coverage >= 1
    modifies nbrs
    ensures SameInputs(old(nbrs[..]), nbrs[..])
    ensures ownHead == 0 ==> nbrs[..] == old(nbrs[..])
    ensures ownHead != 0 ==> forall i :: 0 <= i < nbrs.Length ==> (nbrs[i].isMpr <==> Selected(old(nbrs[..]), ts, i))
    ensures changes <==> Gained(old(nbrs[..]), nbrs[..])
  {
    if ownHead == 0 {
      return false;
    }
    ghost var before := nbrs[..];
    changes := ResetRelays(nbrs);
    ProgressAtStart(before, nbrs[..], ts, changes);
    var k := 0;
    while k < |ts|
      invariant 0 <= k <= |ts|
      invariant Progress(before, nbrs[..], ts, k, changes)
    {
      ghost var now := nbrs[..];
      PickSame(before, now, ts[k]);
      var changed := SelectFor(nbrs, ts[k], coverage);
      ProgressStep(before, now, nbrs[..], ts, k, changes, changed);
      changes := changes || changed;
      k := k + 1;
    }
  }

  // ---------------------------------------------------------------- what the selection guarantees

  /** The relay set depends on which two-hop entries there are, not on their order in the table. */
  lemma OrderIrrelevant(nbrs: seq<Neighbour>, ts: seq<TwoHop>, us: seq<TwoHop>, i: nat)
    requires AllValid(|nbrs|, ts) && AllValid(|nbrs|, us) && i < |nbrs|
    requires forall t :: t in ts <==> t in us
    ensures Selected(nbrs, ts, i) <==> Selected(nbrs, us, i)
  {
    PickedEither(nbrs, ts, us, i);
    PickedEither(nbrs, us, ts, i);
  }

  lemma PickedEither(nbrs: seq<Neighbour>, ts: seq<TwoHop>, us: seq<TwoHop>, i: nat)
    requires AllValid(|nbrs|, ts) && AllValid(|nbrs|, us)
    requires forall t :: t in ts ==> t in us
    ensures Picked(nbrs, ts, i) ==> Picked(nbrs, us, i)
  {
    if Picked(nbrs, ts, i) {
      var k :| 0 <= k < |ts| && Pick(nbrs, ts[k]) == Some(i);
      assert ts[k] in us;
      var j :| 0 <= j < |us| && us[j] == ts[k];
    }
  }

  /** A table that already carries the result of a pass. */
  predicate IsResult(before: seq<Neighbour>, ts: seq<TwoHop>, after: seq<Neighbour>)
    requires AllValid(|before|, ts)
  {
    SameInputs(before, after) && forall i :: 0 <= i < |before| ==> (after[i].isMpr <==> Selected(before, ts, i))
  }

  /** A second pass over unchanged tables changes nothing and reports no change. */
  lemma SecondPassIdle(before: seq<Neighbour>, ts: seq<TwoHop>, after: seq<Neighbour>, again: seq<Neighbour>)
    requires AllValid(|before|, ts) && IsResult(before, ts, after) && IsResult(after, ts, again)
    ensures forall i :: 0 <= i < |before| ==> (again[i].isMpr <==> after[i].isMpr)
    ensures !Gained(after, again)
  {
    forall i | 0 <= i < |before|
      ensures again[i].isMpr <==> after[i].isMpr
    {
      PickedSame(before, after, ts, i);
    }
  }

  lemma PickedSame(a: seq<Neighbour>, b: seq<Neighbour>, ts: seq<TwoHop>, i: nat)
    requires SameInputs(a, b) && AllValid(|a|, ts)
    ensures Picked(a, ts, i) <==> Picked(b, ts, i)
  {
    forall k | 0 <= k < |ts|
      ensures Pick(a, ts[k]) == Pick(b, ts[k])
    {
      PickSame(a, b, ts[k]);
    }
  }

  /** Connector `c` is symmetric and cheaper than `limit`, and no symmetric connector is cheaper. */
  predicate CheapestBelow(nbrs: seq<Neighbour>, t: TwoHop, limit: nat, c: nat)
    requires Valid(|nbrs|, t)
  {
    && c < |t.via| && nbrs[t.via[c].nbr].sym && t.via[c].cost < limit
    && forall i :: 0 <= i < |t.via| && nbrs[t.via[i].nbr].sym ==> t.via[c].cost <= t.via[i].cost
  }

  /** Some symmetric connector is cheaper than `limit`. */
  predicate SomeBelow(nbrs: seq<Neighbour>, t: TwoHop, limit: nat)
    requires Valid(|nbrs|, t)
  {
    exists i :: 0 <= i < |t.via| && nbrs[t.via[i].nbr].sym && t.via[i].cost < limit
  }

  predicate SymmetricNeighbour(nbrs: seq<Neighbour>, t: TwoHop)
    requires Valid(|nbrs|, t)
  {
    t.direct.Some? && nbrs[t.direct.value].sym
  }

  /** What a path must cost less than, told from the tables: a usable link's cost, and the cost of the direct
      link as well if there is one. Without that link a symmetric neighbour needs no relay. */
  function Limit(nbrs: seq<Neighbour>, t: TwoHop): (limit: nat)
    requires Valid(|nbrs|, t)
    ensures !SymmetricNeighbour(nbrs, t) ==> limit == 4194304
    ensures SymmetricNeighbour(nbrs, t) ==>
              limit == if t.directCost.None? then 0 else if t.directCost.value < 4194304 then t.directCost.value else 4194304
  {
    if !IsNear(nbrs, t) then LINK_COST_BROKEN
    else if t.directCost.None? then 0
    else if t.directCost.value < LINK_COST_BROKEN then t.directCost.value else LINK_COST_BROKEN
  }

  /** Which two-hop entries get a relay at least cost, and that it is one: exactly those with a symmetric
      connector below their limit. */
  lemma PickedAtLeastCost(nbrs: seq<Neighbour>, t: TwoHop)
    requires Valid(|nbrs|, t)
    ensures SomeBelow(nbrs, t, Limit(nbrs, t)) <==>
            exists c: nat :: CheapestBelow(nbrs, t, Limit(nbrs, t), c) && Pick(nbrs, t) == Some(t.via[c].nbr)
  {
    var limit, b := Limit(nbrs, t), Best(nbrs, t, |t.via|);
    if SomeBelow(nbrs, t, limit) {
      var i :| 0 <= i < |t.via| && nbrs[t.via[i].nbr].sym && t.via[i].cost < limit;
      assert UsableAt(nbrs, t, i) && !Skipped(nbrs, t);
      CheapestOfAll(nbrs, t, limit, b.value);
    }
  }

  lemma CheapestOfAll(nbrs: seq<Neighbour>, t: TwoHop, limit: nat, b: nat)
    requires Valid(|nbrs|, t) && Best(nbrs, t, |t.via|) == Some(b) && t.via[b].cost < limit
    ensures CheapestBelow(nbrs, t, limit, b)
  {
    forall i | 0 <= i < |t.via| && nbrs[t.via[i].nbr].sym ensures t.via[b].cost <= t.via[i].cost {
      assert UsableAt(nbrs, t, i) || t.via[i].cost >= LINK_COST_BROKEN;
    }
  }

  /** Coverage at least cost, for a node that is no symmetric neighbour: if a symmetric neighbour reaches it
      over a usable path, a cheapest such neighbour is a relay. */
  lemma CoveredAtLeastCost(before: seq<Neighbour>, ts: seq<TwoHop>, after: seq<Neighbour>, k: nat, c: nat)
    requires AllValid(|before|, ts) && IsResult(before, ts, after) && k < |ts| && c < |ts[k].via|
    requires ts[k].direct.None? || !before[ts[k].direct.value].sym
    requires before[ts[k].via[c].nbr].sym && ts[k].via[c].cost < 4194304
    ensures exists b: nat :: CheapestBelow(before, ts[k], 4194304, b) && after[ts[k].via[b].nbr].isMpr
  {
    RelayBelowLimit(before, ts, after, k);
  }

  /** The same for a symmetric neighbour: if some symmetric neighbour reaches it more cheaply than its own
      link does. */
  lemma ShortcutAtLeastCost(before: seq<Neighbour>, ts: seq<TwoHop>, after: seq<Neighbour>, k: nat, c: nat, d: nat)
    requires AllValid(|before|, ts) && IsResult(before, ts, after) && k < |ts| && c < |ts[k].via|
    requires ts[k].direct.Some? && before[ts[k].direct.value].sym && ts[k].directCost == Some(d)
    requires before[ts[k].via[c].nbr].sym && ts[k].via[c].cost < d && ts[k].via[c].cost < 4194304
    ensures exists b: nat :: CheapestBelow(before, ts[k], d, b) && after[ts[k].via[b].nbr].isMpr
  {
    RelayBelowLimit(before, ts, after, k);
    var b: nat :| CheapestBelow(before, ts[k], Limit(before, ts[k]), b) && after[ts[k].via[b].nbr].isMpr;
    assert CheapestBelow(before, ts[k], d, b);
  }

  lemma RelayBelowLimit(before: seq<Neighbour>, ts: seq<TwoHop>, after: seq<Neighbour>, k: nat)
    requires AllValid(|before|, ts) && IsResult(before, ts, after) && k < |ts|
    requires SomeBelow(before, ts[k], Limit(before, ts[k]))
    ensures exists b: nat :: CheapestBelow(before, ts[k], Limit(before, ts[k]), b) && after[ts[k].via[b].nbr].isMpr
  {
    PickedAtLeastCost(before, ts[k]);
    var b: nat :| CheapestBelow(before, ts[k], Limit(before, ts[k]), b) && Pick(before, ts[k]) == Some(ts[k].via[b].nbr);
    assert Picked(before, ts, ts[k].via[b].nbr);
  }

  /** Neighbour `i` relays for `t`: as a cheapest connector below the limit, or as the first connector of a
      head further off for which there is none, unless the direct link is missing or beats every path. */
  ghost predicate Serves(nbrs: seq<Neighbour>, t: TwoHop, i: nat)
    requires Valid(|nbrs|, t)
  {
    || (exists c: nat :: CheapestBelow(nbrs, t, Limit(nbrs, t), c) && t.via[c].nbr == i)
    || (&& !t.is2hop && t.via[0].nbr == i && !SomeBelow(nbrs, t, Limit(nbrs, t))
        && (SymmetricNeighbour(nbrs, t) ==>
              t.directCost.Some? && exists j :: 0 <= j < |t.via| && t.via[j].cost < t.directCost.value))
  }

  /** Every pick serves its entry, and there is a pick whenever somebody does. */
  lemma PickServes(nbrs: seq<Neighbour>, t: TwoHop)
    requires Valid(|nbrs|, t)
    ensures Pick(nbrs, t).Some? ==> Serves(nbrs, t, Pick(nbrs, t).value)
    ensures Pick(nbrs, t).None? ==> forall i :: !Serves(nbrs, t, i)
  {
    var limit, b := Limit(nbrs, t), Best(nbrs, t, |t.via|);
    PickedAtLeastCost(nbrs, t);
    if SomeBelow(nbrs, t, limit) {
      var c: nat :| CheapestBelow(nbrs, t, limit, c) && Pick(nbrs, t) == Some(t.via[c].nbr);
    } else {
      assert forall c: nat :: !CheapestBelow(nbrs, t, limit, c);
      assert b.Some? ==> t.via[b.value].cost >= limit;
    }
  }

  /** Nobody is a relay without a reason that the tables show. */
  lemma RelaysExplained(before: seq<Neighbour>, ts: seq<TwoHop>, after: seq<Neighbour>, i: nat)
    requires AllValid(|before|, ts) && IsResult(before, ts, after) && i < |before| && after[i].isMpr
    ensures || ((before[i].isHead || before[i].myHead) && before[i].isMpr)
            || (before[i].sym && before[i].willingness == 7)
            || exists k :: 0 <= k < |ts| && Serves(before, ts[k], i)
  {
    if Picked(before, ts, i) {
      var k :| 0 <= k < |ts| && Pick(before, ts[k]) == Some(i);
      PickServes(before, ts[k]);
    }
  }

  /** Nobody with such a reason is left out, up to a choice among equally cheap connectors. */
  lemma ReasonsMet(before: seq<Neighbour>, ts: seq<TwoHop>, after: seq<Neighbour>, i: nat)
    requires AllValid(|before|, ts) && IsResult(before, ts, after) && i < |before|
    ensures (before[i].isHead || before[i].myHead) && before[i].isMpr ==> after[i].isMpr
    ensures before[i].sym && before[i].willingness == 7 ==> after[i].isMpr
    ensures forall k :: 0 <= k < |ts| && Serves(before, ts[k], i) ==>
              exists j: nat :: j < |before| && Serves(before, ts[k], j) && after[j].isMpr
  {
    forall k | 0 <= k < |ts| && Serves(before, ts[k], i)
      ensures exists j: nat :: j < |before| && Serves(before, ts[k], j) && after[j].isMpr
    {
      PickServes(before, ts[k]);
      var j := Pick(before, ts[k]).value;
      assert Picked(before, ts, j);
    }
  }

  /** A relay that is not a symmetric neighbour is either a head kept from before or the first
      connector of a head further off for which nothing cheaper than the broken cost was found;
      conversely both do become relays. */
  lemma AsymmetricRelays(before: seq<Neighbour>, ts: seq<TwoHop>, after: seq<Neighbour>, i: nat)
    requires AllValid(|before|, ts) && IsResult(before, ts, after) && i < |before| && !before[i].sym
    ensures after[i].isMpr <==>
            || KeptHead(before[i])
            || exists k :: 0 <= k < |ts| && Fallback(before, ts[k], i)
  {
    forall k | 0 <= k < |ts|
      ensures Pick(before, ts[k]) == Some(i) <==> Fallback(before, ts[k], i)
    {
    }
  }

  /** The quick fix for heads without a usable path takes neighbour `i` as relay. */
  predicate Fallback(nbrs: seq<Neighbour>, t: TwoHop, i: nat)
    requires Valid(|nbrs|, t)
  {
    && !t.is2hop && !Skipped(nbrs, t) && t.via[0].nbr == i
    && forall c :: 0 <= c < |t.via| && UsableAt(nbrs, t, c) ==> CostToBeat(nbrs, t) <= t.via[c].cost
  }
}

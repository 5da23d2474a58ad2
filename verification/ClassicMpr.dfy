/** Relay selection by coverage counts, and its early exit when enough is covered. */
module ClassicMpr {
  import opened Basics
  import opened Sums

  const WILL_ALWAYS := 7

  /** `links[i]` are the two-hop neighbours behind neighbour `i`; `strict[t]` says that `t` is not a
      symmetric neighbour itself. */
  datatype Graph = Graph(links: seq<seq<nat>>, sym: seq<bool>, will: seq<nat>, strict: seq<bool>)

  predicate WellFormed(g: Graph) {
    && |g.links| == |g.sym| == |g.will|
    && forall i :: 0 <= i < |g.links| ==>
         && NoRepeats(g.links[i])
         && forall k :: 0 <= k < |g.links[i]| ==> g.links[i][k] < |g.strict|
  }

  // ---------------------------------------------------------------- double counting

  /** Some symmetric one of the first `i` neighbours leads to the strict two-hop neighbour `t`. */
  predicate Reached(g: Graph, t: nat, i: nat)
    requires |g.links| == |g.sym| && i <= |g.links| && t < |g.strict|
  {
    g.strict[t] && exists j :: 0 <= j < i && g.sym[j] && t in g.links[j]
  }

  /** No neighbour chosen without being symmetric has strict two-hop neighbours behind it. */
  predicate Quiet(g: Graph, chosen: seq<bool>)
    requires WellFormed(g) && |chosen| == |g.links|
  {
    forall i, k :: 0 <= i < |g.links| && chosen[i] && !g.sym[i] && 0 <= k < |g.links[i]| ==> !g.strict[g.links[i][k]]
  }

  /** How often the running count includes `t`: once for every symmetric neighbour from the first one
      that leads to it. */
  function Weight(g: Graph, t: nat, i: nat): nat
    requires WellFormed(g) && i <= |g.links| && t < |g.strict|
  {
    if i == 0 then 0 else Weight(g, t, i - 1) + (if g.sym[i - 1] && Reached(g, t, i) then 1 else 0)
  }

  /** How many of the first `i` neighbours lead to `t` and are chosen. */
  function Covering(g: Graph, chosen: seq<bool>, t: nat, i: nat): nat
    requires WellFormed(g) && |chosen| == |g.links| && i <= |g.links| && t < |g.strict|
  {
    if i == 0 then 0
    else Covering(g, chosen, t, i - 1) + (if chosen[i - 1] && g.strict[t] && t in g.links[i - 1] then 1 else 0)
  }

  lemma {:induction false} CoveringAtMostWeight(g: Graph, chosen: seq<bool>, t: nat, i: nat)
    requires WellFormed(g) && |chosen| == |g.links| && i <= |g.links| && t < |g.strict| && Quiet(g, chosen)
    ensures Covering(g, chosen, t, i) <= Weight(g, t, i)
  {
    if i > 0 {
      CoveringAtMostWeight(g, chosen, t, i - 1);
    }
  }

  /** Choosing one more neighbour adds one to the strict two-hop neighbours behind it. */
  lemma {:induction false} ChooseOne(g: Graph, chosen: seq<bool>, n: nat, t: nat, i: nat)
    requires WellFormed(g) && |chosen| == |g.links| && i <= |g.links| && t < |g.strict|
    requires n < |chosen| && !chosen[n]
    ensures Covering(g, chosen[n := true], t, i)
         == Covering(g, chosen, t, i) + (if n < i && g.strict[t] && t in g.links[n] then 1 else 0)
  {
    if i > 0 {
      ChooseOne(g, chosen, n, t, i - 1);
    }
  }

  /** What `t` adds to the count of covered two-hop neighbours. */
  function Excess(count: nat, coverage: nat): nat {
    if count < coverage then 0 else count - coverage + 1
  }

  function Excesses(covered: seq<nat>, coverage: nat): (r: seq<nat>)
    ensures |r| == |covered| && forall t :: 0 <= t < |r| ==> r[t] == Excess(covered[t], coverage)
  {
    seq(|covered|, t requires 0 <= t < |covered| => Excess(covered[t], coverage))
  }

  function Weights(g: Graph, i: nat): (r: seq<nat>)
    requires WellFormed(g) && i <= |g.links|
    ensures |r| == |g.strict| && forall t :: 0 <= t < |r| ==> r[t] == Weight(g, t, i)
  {
    seq(|g.strict|, t requires 0 <= t < |g.strict| => Weight(g, t, i))
  }

  /** The counters agree with the choice. */
  ghost predicate Counted(g: Graph, chosen: seq<bool>, covered: seq<nat>)
    requires WellFormed(g) && |chosen| == |g.links|
  {
    |covered| == |g.strict| && forall t :: 0 <= t < |covered| ==> covered[t] == Covering(g, chosen, t, |g.links|)
  }

  /** Every symmetric neighbour that leads to `t` is chosen. */
  predicate AllChosen(g: Graph, chosen: seq<bool>, t: nat)
    requires |chosen| == |g.links| == |g.sym|
  {
    forall j :: 0 <= j < |g.links| && g.sym[j] && t in g.links[j] ==> chosen[j]
  }

  lemma {:induction false} FullCovering(g: Graph, chosen: seq<bool>, t: nat, i: nat)
    requires WellFormed(g) && |chosen| == |g.links| && i <= |g.links| && t < |g.strict| && g.strict[t]
    requires Covering(g, chosen, t, i) == Weight(g, t, i) && Quiet(g, chosen)
    ensures forall j :: 0 <= j < i && g.sym[j] && t in g.links[j] ==> chosen[j]
  {
    if i > 0 {
      CoveringAtMostWeight(g, chosen, t, i - 1);
      assert g.sym[i - 1] && t in g.links[i - 1] ==> Reached(g, t, i);
      FullCovering(g, chosen, t, i - 1);
    }
  }

  /** Unless a neighbour that is not symmetric was chosen for its two-hop neighbours, the covered count
      never exceeds the running two-hop count, and reaches it only when every strict two-hop neighbour is
      covered as often as required. Then every symmetric neighbour leading to it is chosen, and unless
      there are none at all the required coverage is one. */
  lemma EarlyExit(g: Graph, chosen: seq<bool>, covered: seq<nat>, coverage: nat)
    requires WellFormed(g) && |chosen| == |g.links| && Counted(g, chosen, covered) && coverage >= 1 && Quiet(g, chosen)
    ensures Sum(Excesses(covered, coverage)) <= Sum(Weights(g, |g.links|))
    ensures Sum(Excesses(covered, coverage)) == Sum(Weights(g, |g.links|)) ==>
              forall t :: 0 <= t < |g.strict| && Reached(g, t, |g.links|) ==>
                coverage == 1 && covered[t] >= coverage && AllChosen(g, chosen, t)
  {
    var e, w, n := Excesses(covered, coverage), Weights(g, |g.links|), |g.links|;
    forall t | 0 <= t < |e| ensures e[t] <= covered[t] <= w[t] {
      CoveringAtMostWeight(g, chosen, t, n);
    }
    SumEqual(e, w);
    forall t | 0 <= t < |g.strict| && Reached(g, t, n) ensures w[t] > 0 && (covered[t] == w[t] ==> AllChosen(g, chosen, t)) {
      ReachedWeighs(g, t, n);
      if covered[t] == w[t] {
        FullCovering(g, chosen, t, n);
      }
    }
  }

  lemma {:induction false} ReachedWeighs(g: Graph, t: nat, i: nat)
    requires WellFormed(g) && i <= |g.links| && t < |g.strict| && Reached(g, t, i)
    ensures Weight(g, t, i) > 0
  {
    if !(g.sym[i - 1] && t in g.links[i - 1]) {
      ReachedWeighs(g, t, i - 1);
    }
  }

  // ---------------------------------------------------------------- the selection

  /** One for every neighbour not chosen yet. */
  function Open(chosen: seq<bool>): (r: seq<nat>)
    ensures |r| == |chosen| && forall i :: 0 <= i < |r| ==> r[i] == (if chosen[i] then 0 else 1)
  {
    seq(|chosen|, i requires 0 <= i < |chosen| => if chosen[i] then 0 else 1)
  }

  lemma OpenShrinks(chosen: seq<bool>, n: nat)
    requires n < |chosen| && !chosen[n]
    ensures Sum(Open(chosen[n := true])) + 1 == Sum(Open(chosen))
  {
    SumAfterUpdate(Open(chosen), n, 0);
    assert Open(chosen)[n := 0] == Open(chosen[n := true]);
  }

  /** One step of `olsr_chosen_mpr`: the count goes up when the coverage of `t` is sufficient. */
  lemma CoverOne(covered: seq<nat>, coverage: nat, t: nat)
    requires t < |covered| && coverage >= 1
    ensures Sum(Excesses(covered[t := covered[t] + 1], coverage))
         == Sum(Excesses(covered, coverage)) + (if covered[t] + 1 >= coverage then 1 else 0)
  {
    var x := Excess(covered[t] + 1, coverage);
    SumAfterUpdate(Excesses(covered, coverage), t, x);
    assert Excesses(covered, coverage)[t := x] == Excesses(covered[t := covered[t] + 1], coverage);
  }

  /** The counters after the first `k` two-hop neighbours of a chosen one. */
  ghost predicate PartlyCovered(g: Graph, before: seq<nat>, after: seq<nat>, n: nat, k: nat)
    requires WellFormed(g) && n < |g.links| && k <= |g.links[n]| && |before| == |g.strict|
  {
    && |after| == |before|
    && forall t :: 0 <= t < |before| ==>
         after[t] == before[t] + (if g.strict[t] && t in g.links[n][..k] then 1 else 0)
  }

  lemma CoverNext(g: Graph, before: seq<nat>, after: seq<nat>, n: nat, k: nat)
    requires WellFormed(g) && n < |g.links| && k < |g.links[n]| && |before| == |g.strict|
    requires PartlyCovered(g, before, after, n, k)
    ensures var t := g.links[n][k];
      PartlyCovered(g, before, if g.strict[t] then after[t := after[t] + 1] else after, n, k + 1)
  {
    var list := g.links[n];
    assert list[..k + 1] == list[..k] + [list[k]];
    assert list[k] !in list[..k];
  }

  /** Neighbour `j` is the only way to `t`. */
  predicate OnlyWay(g: Graph, t: nat, j: nat) {
    j < |g.links| && t in g.links[j] && forall k :: 0 <= k < |g.links| && t in g.links[k] ==> k == j
  }

  /** Some strict two-hop neighbour has `j` as its only way. */
  predicate Needed(g: Graph, j: nat) {
    exists t :: 0 <= t < |g.strict| && g.strict[t] && OnlyWay(g, t, j)
  }

  /** The strict two-hop neighbours among the first `k` behind neighbour `i`. */
  function StrictIn(g: Graph, i: nat, k: nat): nat
    requires WellFormed(g) && i < |g.links| && k <= |g.links[i]|
  {
    if k == 0 then 0 else StrictIn(g, i, k - 1) + (if g.strict[g.links[i][k - 1]] then 1 else 0)
  }

  /** How many links lead from the first `i` symmetric neighbours to strict two-hop neighbours. */
  function Behind(g: Graph, i: nat): nat
    requires WellFormed(g) && i <= |g.links|
  {
    if i == 0 then 0 else Behind(g, i - 1) + (if g.sym[i - 1] then StrictIn(g, i - 1, |g.links[i - 1]|) else 0)
  }

  predicate NeededFor(g: Graph, t: nat, j: nat, w: nat)
    requires WellFormed(g)
  {
    t < |g.strict| && g.strict[t] && OnlyWay(g, t, j) && g.sym[j] && g.will[j] == w
  }

  /** One for every two-hop neighbour marked. */
  function Marks(marked: seq<bool>): (r: seq<nat>)
    ensures |r| == |marked| && forall t :: 0 <= t < |r| ==> r[t] == (if marked[t] then 1 else 0)
  {
    seq(|marked|, t requires 0 <= t < |marked| => if marked[t] then 1 else 0)
  }

  lemma MarkOne(marked: seq<bool>, t: nat)
    requires t < |marked|
    ensures Sum(Marks(marked[t := true])) == Sum(Marks(marked)) + (if marked[t] then 0 else 1)
  {
    SumAfterUpdate(Marks(marked), t, 1);
    assert Marks(marked)[t := 1] == Marks(marked[t := true]);
  }

  /** Exactly the two-hop neighbours behind the first `i` symmetric neighbours, and the first `k` behind
      the next one, are marked. */
  ghost predicate MarkedUpTo(g: Graph, marked: seq<bool>, i: nat, k: nat)
    requires WellFormed(g) && i <= |g.links| && (k > 0 ==> i < |g.links| && k <= |g.links[i]|)
  {
    && |marked| == |g.strict|
    && forall t :: 0 <= t < |marked| ==>
         (marked[t] <==> Reached(g, t, i) || (k > 0 && g.strict[t] && t in g.links[i][..k]))
  }

  lemma MarkNext(g: Graph, marked: seq<bool>, i: nat, k: nat)
    requires WellFormed(g) && i < |g.links| && k < |g.links[i]| && MarkedUpTo(g, marked, i, k)
    ensures var t := g.links[i][k];
      MarkedUpTo(g, if g.strict[t] then marked[t := true] else marked, i, k + 1)
  {
    var list := g.links[i];
    assert list[..k + 1] == list[..k] + [list[k]];
  }

  lemma MarkRow(g: Graph, marked: seq<bool>, i: nat)
    requires WellFormed(g) && i < |g.links|
    requires if g.sym[i] then MarkedUpTo(g, marked, i, |g.links[i]|) else MarkedUpTo(g, marked, i, 0)
    ensures MarkedUpTo(g, marked, i + 1, 0)
  {
    var list := g.links[i];
    assert list[..|list|] == list;
    forall t | 0 <= t < |marked|
      ensures Reached(g, t, i + 1) <==> Reached(g, t, i) || (g.sym[i] && g.strict[t] && t in list)
    {
    }
  }

  /** The running count grows by the number of marks for each symmetric neighbour. */
  lemma WeightNext(g: Graph, marked: seq<bool>, i: nat)
    requires WellFormed(g) && i < |g.links| && MarkedUpTo(g, marked, i + 1, 0)
    ensures Sum(Weights(g, i + 1)) == Sum(Weights(g, i)) + (if g.sym[i] then Sum(Marks(marked)) else 0)
  {
    if g.sym[i] {
      SumPlus(Weights(g, i), Marks(marked), Weights(g, i + 1));
    } else {
      assert Weights(g, i + 1) == Weights(g, i);
    }
  }

  /** Which strict two-hop neighbours lie behind the first `i` symmetric neighbours, and how many. */
  function MetBefore(g: Graph, i: nat): (r: seq<bool>)
    requires WellFormed(g) && i <= |g.links|
    ensures |r| == |g.strict| && forall t :: 0 <= t < |r| ==> r[t] == Reached(g, t, i)
  {
    seq(|g.strict|, t requires 0 <= t < |g.strict| => Reached(g, t, i))
  }

  function Met(g: Graph, i: nat): nat
    requires WellFormed(g) && i <= |g.links|
  {
    Sum(Marks(MetBefore(g, i)))
  }

  lemma MarkedIsMet(g: Graph, marked: seq<bool>, i: nat)
    requires WellFormed(g) && i <= |g.links| && MarkedUpTo(g, marked, i, 0)
    ensures Sum(Marks(marked)) == Met(g, i)
  {
    assert marked == MetBefore(g, i);
  }

  /** What the first `i` neighbours have left to cover at the start: a symmetric one all links up to and
      including its own, any other one the two-hop neighbours met before it. */
  predicate LeftToCover(g: Graph, nocov: seq<int>, i: nat)
    requires WellFormed(g) && i <= |g.links| && |nocov| == |g.links|
  {
    forall k :: 0 <= k < i ==> nocov[k] == if g.sym[k] then Behind(g, k + 1) else Met(g, k)
  }

  lemma LeftNext(g: Graph, nocov: seq<int>, i: nat, x: int)
    requires WellFormed(g) && i < |g.links| && |nocov| == |g.links| && LeftToCover(g, nocov, i)
    requires x == if g.sym[i] then Behind(g, i + 1) else Met(g, i)
    ensures LeftToCover(g, nocov[i := x], i + 1)
  {
  }

  /** The counters after the first `i` neighbours: the two-hop neighbours met, the links, the running sum
      and what each neighbour has left to cover. */
  ghost predicate CountedTo(g: Graph, marked: seq<bool>, nocov: seq<int>, count: nat, behind: nat, sum: nat, i: nat)
    requires WellFormed(g) && i <= |g.links|
  {
    && MarkedUpTo(g, marked, i, 0) && count == Sum(Marks(marked)) && behind == Behind(g, i) && sum == Sum(Weights(g, i))
    && |nocov| == |g.links| && LeftToCover(g, nocov, i)
  }

  lemma NothingCounted(g: Graph, marked: seq<bool>, nocov: seq<int>)
    requires WellFormed(g) && |marked| == |g.strict| && |nocov| == |g.links| && forall t :: 0 <= t < |marked| ==> !marked[t]
    ensures CountedTo(g, marked, nocov, 0, 0, 0, 0)
  {
    SumConstant(Marks(marked), 0);
    SumConstant(Weights(g, 0), 0);
  }

  /** How far the two-hop neighbours among the first `k` behind `j` are covered beyond the first time
      it was enough. */
  function ExcessBehind(g: Graph, covered: seq<nat>, coverage: nat, j: nat, k: nat): nat
    requires WellFormed(g) && |covered| == |g.strict| && j < |g.links| && k <= |g.links[j]|
  {
    if k == 0 then 0
    else
      var t := g.links[j][k - 1];
      ExcessBehind(g, covered, coverage, j, k - 1) + (if g.strict[t] then Excess(covered[t], coverage) else 0)
  }

  lemma {:induction false} ExcessNext(g: Graph, covered: seq<nat>, coverage: nat, t: nat, j: nat, k: nat)
    requires WellFormed(g) && |covered| == |g.strict| && j < |g.links| && k <= |g.links[j]| && coverage >= 1
    requires t < |covered| && g.strict[t]
    ensures ExcessBehind(g, covered[t := covered[t] + 1], coverage, j, k)
         == ExcessBehind(g, covered, coverage, j, k) + (if covered[t] + 1 >= coverage && t in g.links[j][..k] then 1 else 0)
  {
    if k > 0 {
      ExcessNext(g, covered, coverage, t, j, k - 1);
      var list := g.links[j];
      assert list[..k] == list[..k - 1] + [list[k - 1]];
      assert list[k - 1] !in list[..k - 1];
    }
  }

  lemma {:induction false} NoExcess(g: Graph, covered: seq<nat>, coverage: nat, j: nat, k: nat)
    requires WellFormed(g) && |covered| == |g.strict| && j < |g.links| && k <= |g.links[j]| && coverage >= 1
    requires forall t :: 0 <= t < |covered| ==> covered[t] == 0
    ensures ExcessBehind(g, covered, coverage, j, k) == 0
  {
    if k > 0 {
      NoExcess(g, covered, coverage, j, k - 1);
    }
  }

  /** What neighbour `j` has left to cover: a symmetric one what it started with less all excess behind
      it; for any other one nothing is ever taken off. */
  function Rest(g: Graph, covered: seq<nat>, coverage: nat, j: nat): int
    requires WellFormed(g) && |covered| == |g.strict| && j < |g.links|
  {
    if g.sym[j] then Behind(g, j + 1) - ExcessBehind(g, covered, coverage, j, |g.links[j]|) else Met(g, j)
  }

  ghost predicate Remaining(g: Graph, nocov: seq<int>, covered: seq<nat>, coverage: nat)
    requires WellFormed(g)
  {
    && |nocov| == |g.links| && |covered| == |g.strict|
    && forall j :: 0 <= j < |g.links| ==> nocov[j] == Rest(g, covered, coverage, j)
  }

  lemma RemainingNext(g: Graph, nocov: seq<int>, after: seq<int>, covered: seq<nat>, coverage: nat, t: nat)
    requires WellFormed(g) && coverage >= 1 && Remaining(g, nocov, covered, coverage) && t < |covered| && g.strict[t]
    requires |after| == |nocov| && forall j :: 0 <= j < |after| ==>
               after[j] == nocov[j] - (if covered[t] + 1 >= coverage && g.sym[j] && t in g.links[j] then 1 else 0)
    ensures Remaining(g, after, covered[t := covered[t] + 1], coverage)
  {
    forall j | 0 <= j < |g.links| ensures after[j] == Rest(g, covered[t := covered[t] + 1], coverage, j) {
      ExcessNext(g, covered, coverage, t, j, |g.links[j]|);
      assert g.links[j][..|g.links[j]|] == g.links[j];
    }
  }

  lemma RemainingAtStart(g: Graph, nocov: seq<int>, covered: seq<nat>, coverage: nat)
    requires WellFormed(g) && coverage >= 1 && |nocov| == |g.links| && |covered| == |g.strict|
    requires LeftToCover(g, nocov, |g.links|) && forall t :: 0 <= t < |covered| ==> covered[t] == 0
    ensures Remaining(g, nocov, covered, coverage)
  {
    forall j | 0 <= j < |g.links| ensures ExcessBehind(g, covered, coverage, j, |g.links[j]|) == 0 {
      NoExcess(g, covered, coverage, j, |g.links[j]|);
    }
  }

  // ---------------------------------------------------------------- the selection on values

  /** How often each two-hop neighbour is covered by a choice. */
  function Covers(g: Graph, chosen: seq<bool>): (r: seq<nat>)
    requires WellFormed(g) && |chosen| == |g.links|
    ensures |r| == |g.strict| && forall t :: 0 <= t < |r| ==> r[t] == Covering(g, chosen, t, |g.links|)
  {
    seq(|g.strict|, t requires 0 <= t < |g.strict| => Covering(g, chosen, t, |g.links|))
  }

  /** What `j` has left to cover under a choice, how much is covered, and how much would be enough. */
  function Left(g: Graph, chosen: seq<bool>, coverage: nat, j: nat): int
    requires WellFormed(g) && |chosen| == |g.links| && j < |g.links|
  {
    Rest(g, Covers(g, chosen), coverage, j)
  }

  function Total(g: Graph, chosen: seq<bool>, coverage: nat): nat
    requires WellFormed(g) && |chosen| == |g.links|
  {
    Sum(Excesses(Covers(g, chosen), coverage))
  }

  function Goal(g: Graph): nat
    requires WellFormed(g)
  {
    Sum(Weights(g, |g.links|))
  }

  function Always(g: Graph): (r: seq<bool>)
    requires WellFormed(g)
    ensures |r| == |g.links| && forall i :: 0 <= i < |r| ==> r[i] == (g.sym[i] && g.will[i] == WILL_ALWAYS)
  {
    seq(|g.links|, i requires 0 <= i < |g.links| => g.sym[i] && g.will[i] == WILL_ALWAYS)
  }

  /** The neighbours of willingness `w` that are the only way to some strict two-hop neighbour are added. */
  function WithNeeded(g: Graph, chosen: seq<bool>, w: nat): (r: seq<bool>)
    requires WellFormed(g) && |chosen| == |g.links|
    ensures |r| == |chosen|
    ensures forall j :: 0 <= j < |r| ==> r[j] == (chosen[j] || (g.sym[j] && g.will[j] == w && Needed(g, j)))
  {
    seq(|chosen|, j requires 0 <= j < |chosen| => chosen[j] || (g.sym[j] && g.will[j] == w && Needed(g, j)))
  }

  /** `j` can be picked in the round of willingness `w`. */
  predicate Eligible(g: Graph, chosen: seq<bool>, coverage: nat, w: nat, j: nat)
    requires WellFormed(g) && |chosen| == |g.links| && j < |g.links|
  {
    !chosen[j] && g.will[j] == w && Left(g, chosen, coverage, j) > 0
  }

  /** The first of the first `n` neighbours with the most left to cover. */
  function Best(g: Graph, chosen: seq<bool>, coverage: nat, w: nat, n: nat): (b: Option<nat>)
    requires WellFormed(g) && |chosen| == |g.links| && n <= |g.links|
    ensures b.Some? ==> b.value < n && Eligible(g, chosen, coverage, w, b.value)
    ensures forall i :: 0 <= i < n && Eligible(g, chosen, coverage, w, i) ==>
              b.Some? && Left(g, chosen, coverage, i) <= Left(g, chosen, coverage, b.value)
    ensures b.Some? ==> forall i :: 0 <= i < b.value && Eligible(g, chosen, coverage, w, i) ==>
              Left(g, chosen, coverage, i) < Left(g, chosen, coverage, b.value)
  {
    if n == 0 then None
    else
      var b := Best(g, chosen, coverage, w, n - 1);
      if Eligible(g, chosen, coverage, w, n - 1)
         && (b.None? || Left(g, chosen, coverage, b.value) < Left(g, chosen, coverage, n - 1)) then Some(n - 1)
      else b
  }

  /** A choice, and whether enough was covered before the end. */
  datatype Outcome = Outcome(chosen: seq<bool>, full: bool)

  function Greedy(g: Graph, chosen: seq<bool>, coverage: nat, w: nat): (r: Outcome)
    requires WellFormed(g) && |chosen| == |g.links|
    ensures |r.chosen| == |chosen|
    decreases Sum(Open(chosen))
  {
    var b := Best(g, chosen, coverage, w, |g.links|);
    if b.None? then Outcome(chosen, false)
    else
      var next := chosen[b.value := true];
      OpenShrinks(chosen, b.value);
      if Total(g, next, coverage) >= Goal(g) then Outcome(next, true) else Greedy(g, next, coverage, w)
  }

  /** The round of willingness `w`. */
  function Round(g: Graph, chosen: seq<bool>, coverage: nat, w: nat): (r: Outcome)
    requires WellFormed(g) && |chosen| == |g.links|
    ensures |r.chosen| == |chosen|
  {
    var next := WithNeeded(g, chosen, w);
    if Total(g, next, coverage) >= Goal(g) then Outcome(next, true) else Greedy(g, next, coverage, w)
  }

  function RoundOf(g: Graph, coverage: nat): (seq<bool>, nat) -> Outcome
    requires WellFormed(g)
  {
    (chosen: seq<bool>, w: nat) => if |chosen| == |g.links| then Round(g, chosen, coverage, w) else Outcome(chosen, false)
  }

  /** The rounds from willingness `w` down to one, until enough is covered. */
  function Rounds(round: (seq<bool>, nat) -> Outcome, chosen: seq<bool>, w: nat): Outcome
    decreases w
  {
    if w == 0 then Outcome(chosen, false)
    else
      var r := round(chosen, w);
      if r.full then r else Rounds(round, r.chosen, w - 1)
  }

  lemma {:induction false} RoundsSameLength(round: (seq<bool>, nat) -> Outcome, chosen: seq<bool>, w: nat, n: nat)
    requires |chosen| == n && forall c, v :: |c| == n ==> |round(c, v).chosen| == n
    ensures |Rounds(round, chosen, w).chosen| == n
    decreases w
  {
    if w > 0 {
      var r := round(chosen, w);
      RoundsSameLength(round, r.chosen, w - 1, n);
    }
  }

  /** What `olsr_calculate_mpr` selects before the optimisation. */
  function Selected(g: Graph, coverage: nat): (r: Outcome)
    requires WellFormed(g)
    ensures |r.chosen| == |g.links|
  {
    var round := RoundOf(g, coverage);
    RoundsSameLength(round, Always(g), WILL_ALWAYS - 1, |g.links|);
    Rounds(round, Always(g), WILL_ALWAYS - 1)
  }

  class Selection {
    const g: Graph
    const coverage: nat
    const isMpr: array<bool>
    const covered: array<nat>
    const nocov: array<int>

    predicate Shape()
      reads this
    {
      && WellFormed(g) && coverage >= 1
      && isMpr.Length == nocov.Length == |g.links| && covered.Length == |g.strict|
    }

    ghost predicate Valid()
      reads this, isMpr, covered
    {
      Shape() && Counted(g, isMpr[..], covered[..])
    }

    /** The counts of what is left to cover are right as well: the whole state follows from the choice. */
    ghost predicate Tracked()
      reads this, isMpr, covered, nocov
    {
      Valid() && Remaining(g, nocov[..], covered[..], coverage)
    }

    ghost function Count(): nat
      reads this, covered
    {
      Sum(Excesses(covered[..], coverage))
    }

    /** `olsr_clear_mprs`, as far as the selection is concerned. */
    method Clear()
      requires Shape()
      modifies isMpr, covered
      ensures Valid() && Count() == 0
      ensures forall i :: 0 <= i < isMpr.Length ==> !isMpr[i]
      ensures forall t :: 0 <= t < covered.Length ==> covered[..][t] == 0
    {
      for i := 0 to isMpr.Length
        invariant forall k :: 0 <= k < i ==> !isMpr[k]
      {
        isMpr[i] := false;
      }
      for t := 0 to covered.Length
        invariant forall k :: 0 <= k < t ==> covered[k] == 0
        invariant forall k :: 0 <= k < isMpr.Length ==> !isMpr[k]
      {
        covered[t] := 0;
      }
      SumConstant(Excesses(covered[..], coverage), 0);
      forall t | 0 <= t < |g.strict| ensures Covering(g, isMpr[..], t, |g.links|) == 0 {
        NothingChosen(g, isMpr[..], t, |g.links|);
      }
    }

    /** One less to cover for every symmetric neighbour of `t`. */
    method Uncount(t: nat)
      requires Shape() && t < |g.strict|
      modifies nocov
      ensures forall j :: 0 <= j < |g.links| ==>
                nocov[j] == old(nocov[j]) - (if g.sym[j] && t in g.links[j] then 1 else 0)
    {
      for j := 0 to |g.links|
        invariant forall k :: 0 <= k < j ==>
                    nocov[k] == old(nocov[k]) - (if g.sym[k] && t in g.links[k] then 1 else 0)
        invariant forall k :: j <= k < nocov.Length ==> nocov[k] == old(nocov[k])
      {
        if g.sym[j] && t in g.links[j] {
          nocov[j] := nocov[j] - 1;
        }
      }
    }

    /** `t` is covered once more. */
    method CoverStep(t: nat, count: nat) returns (count': nat)
      requires Shape() && t < |g.strict| && count == Count()
      modifies covered, nocov
      ensures count' == Count() && covered[..] == old(covered[..])[t := old(covered[t]) + 1]
      ensures forall j :: 0 <= j < |g.links| ==>
                nocov[j] == old(nocov[j]) - (if covered[t] >= coverage && g.sym[j] && t in g.links[j] then 1 else 0)
    {
      CoverOne(covered[..], coverage, t);
      count' := count;
      covered[t] := covered[t] + 1;
      assert covered[..] == old(covered[..])[t := old(covered[t]) + 1];
      if covered[t] >= coverage {
        count' := count' + 1;
        Uncount(t);
      }
    }

    /** The same, for a strict two-hop neighbour: what is left to cover stays right. */
    method CoverStrict(t: nat, count: nat) returns (count': nat)
      requires Shape() && t < |g.strict| && g.strict[t] && count == Count() && Remaining(g, nocov[..], covered[..], coverage)
      modifies covered, nocov
      ensures count' == Count() && covered[..] == old(covered[..])[t := old(covered[t]) + 1]
      ensures Remaining(g, nocov[..], covered[..], coverage)
    {
      count' := CoverStep(t, count);
      RemainingNext(g, old(nocov[..]), nocov[..], old(covered[..]), coverage, t);
    }

    /** The loop of `olsr_chosen_mpr` over the two-hop neighbours behind `n`. */
    method Cover(n: nat, count: nat) returns (count': nat)
      requires Shape() && n < |g.links| && count == Count() && Remaining(g, nocov[..], covered[..], coverage)
      modifies covered, nocov
      ensures count' == Count() && PartlyCovered(g, old(covered[..]), covered[..], n, |g.links[n]|)
      ensures Remaining(g, nocov[..], covered[..], coverage)
    {
      count' := count;
      ghost var before := covered[..];
      var k := 0;
      while k < |g.links[n]|
        invariant k <= |g.links[n]| && count' == Count() && PartlyCovered(g, before, covered[..], n, k)
        invariant Remaining(g, nocov[..], covered[..], coverage)
      {
        var t := g.links[n][k];
        CoverNext(g, before, covered[..], n, k);
        if g.strict[t] {
          count' := CoverStrict(t, count');
        }
        k := k + 1;
      }
    }

    /** A two-hop neighbour is counted the first time it is met. */
    method MarkStep(t: nat, marked: array<bool>, count: nat) returns (count': nat)
      requires t < marked.Length && count == Sum(Marks(marked[..]))
      modifies marked
      ensures marked[..] == old(marked[..])[t := true] && count' == Sum(Marks(marked[..]))
    {
      MarkOne(marked[..], t);
      count' := count;
      if !marked[t] {
        count' := count' + 1;
        marked[t] := true;
      }
      assert marked[..] == old(marked[..])[t := true];
    }

    /** The same for the two-hop neighbour behind link `k` of neighbour `i`, if it is strict. */
    method MarkLink(i: nat, k: nat, marked: array<bool>, count: nat, behind: nat)
      returns (count': nat, behind': nat)
      requires Shape() && i < |g.links| && k < |g.links[i]|
      requires MarkedUpTo(g, marked[..], i, k) && count == Sum(Marks(marked[..]))
      modifies marked
      ensures MarkedUpTo(g, marked[..], i, k + 1) && count' == Sum(Marks(marked[..]))
      ensures behind' - StrictIn(g, i, k + 1) == behind - StrictIn(g, i, k)
    {
      MarkNext(g, marked[..], i, k);
      count', behind' := count, behind;
      if g.strict[g.links[i][k]] {
        behind' := behind + 1;
        count' := MarkStep(g.links[i][k], marked, count);
      }
    }

    /** The inner loop of `olsr_calculate_two_hop_neighbors`. */
    method MarkBehind(i: nat, marked: array<bool>, count: nat, behind: nat) returns (count': nat, behind': nat)
      requires Shape() && i < |g.links| && g.sym[i] && MarkedUpTo(g, marked[..], i, 0) && count == Sum(Marks(marked[..]))
      modifies marked
      ensures MarkedUpTo(g, marked[..], i, |g.links[i]|) && count' == Sum(Marks(marked[..]))
      ensures behind' == behind + StrictIn(g, i, |g.links[i]|)
    {
      count', behind' := count, behind;
      var k := 0;
      while k < |g.links[i]|
        invariant k <= |g.links[i]| && MarkedUpTo(g, marked[..], i, k) && count' == Sum(Marks(marked[..]))
        invariant behind' == behind + StrictIn(g, i, k)
      {
        count', behind' := MarkLink(i, k, marked, count', behind');
        k := k + 1;
      }
    }

    /** The outer loop body: the counts after neighbour `i`. */
    method CountRow(i: nat, marked: array<bool>, count: nat, behind: nat, sum: nat)
      returns (count': nat, behind': nat, sum': nat)
      requires Shape() && i < |g.links| && CountedTo(g, marked[..], nocov[..], count, behind, sum, i)
      modifies marked, nocov
      ensures CountedTo(g, marked[..], nocov[..], count', behind', sum', i + 1)
    {
      ghost var before := nocov[..];
      MarkedIsMet(g, marked[..], i);
      count', behind', sum' := count, behind, sum;
      if !g.sym[i] {
        nocov[i] := count;
      } else {
        count', behind' := MarkBehind(i, marked, count, behind);
        nocov[i] := behind';
        sum' := sum + count';
      }
      assert nocov[..] == before[i := nocov[i]];
      LeftNext(g, before, i, nocov[i]);
      MarkRow(g, marked[..], i);
      WeightNext(g, marked[..], i);
    }

    /** `olsr_calculate_two_hop_neighbors`: a running sum, larger than the number of two-hop
        neighbours; what is left to cover accumulates over the neighbours as well. */
    method CountTwoHop() returns (sum: nat)
      requires Shape()
      modifies nocov
      ensures sum == Sum(Weights(g, |g.links|))
      ensures LeftToCover(g, nocov[..], |g.links|)
    {
      var marked := new bool[|g.strict|](_ => false);
      var count, behind, i := 0, 0, 0;
      sum := 0;
      NothingCounted(g, marked[..], nocov[..]);
      while i < |g.links|
        invariant i <= |g.links| && fresh(marked)
        invariant CountedTo(g, marked[..], nocov[..], count, behind, sum, i)
      {
        count, behind, sum := CountRow(i, marked, count, behind, sum);
        i := i + 1;
      }
    }

    /** `olsr_chosen_mpr` for a neighbour not chosen before. */
    method Choose(n: nat, count: nat) returns (count': nat)
      requires Tracked() && n < |g.links| && !isMpr[n] && count == Count()
      modifies isMpr, covered, nocov
      ensures Tracked() && count' == Count() && isMpr[..] == old(isMpr[..])[n := true]
    {
      ghost var chosen := isMpr[..];
      isMpr[n] := true;
      assert isMpr[..] == chosen[n := true];
      count' := Cover(n, count);
      forall t | 0 <= t < |g.strict| ensures covered[..][t] == Covering(g, isMpr[..], t, |g.links|) {
        ChooseOne(g, chosen, n, t, |g.links|);
        assert g.links[n][..|g.links[n]|] == g.links[n];
      }
    }

    /** `add_will_always_nodes` */
    method AddWillAlways() returns (count: nat)
      requires Tracked() && Count() == 0 && forall i :: 0 <= i < isMpr.Length ==> !isMpr[i]
      modifies isMpr, covered, nocov
      ensures Tracked() && count == Count() && isMpr[..] == Always(g)
    {
      count := 0;
      var i := 0;
      while i < |g.links|
        invariant i <= |g.links| && Tracked() && count == Count()
        invariant forall k :: i <= k < isMpr.Length ==> !isMpr[k]
        invariant forall k :: 0 <= k < i ==> (isMpr[k] <==> g.sym[k] && g.will[k] == WILL_ALWAYS)
      {
        if g.sym[i] && g.will[i] == WILL_ALWAYS {
          count := Choose(i, count);
        }
        i := i + 1;
      }
    }

    /** The only neighbour that leads to `t`, if there is just one. */
    method OnlyNeighbour(t: nat) returns (only: Option<nat>)
      requires Shape()
      ensures only.Some? ==> OnlyWay(g, t, only.value)
      ensures only.None? ==> forall j :: 0 <= j < |g.links| ==> !OnlyWay(g, t, j)
    {
      only := None;
      var several, i := false, 0;
      while i < |g.links|
        invariant i <= |g.links|
        invariant only.Some? ==> only.value < i && t in g.links[only.value]
        invariant only.None? ==> forall j :: 0 <= j < i ==> t !in g.links[j]
        invariant !several ==> forall j :: 0 <= j < i && t in g.links[j] ==> only == Some(j)
        invariant several ==> only.Some? && exists j :: only.value < j < i && t in g.links[j]
      {
        if t in g.links[i] {
          if only.Some? {
            several := true;
          } else {
            only := Some(i);
          }
        }
        i := i + 1;
      }
      if several {
        only := None;
      }
    }

    /** The neighbours of willingness `w` that are the only way to some strict two-hop neighbour. */
    method AddOneLink(w: nat, count: nat) returns (count': nat)
      requires Tracked() && count == Count()
      modifies isMpr, covered, nocov
      ensures Tracked() && count' == Count() && isMpr[..] == WithNeeded(g, old(isMpr[..]), w)
    {
      count' := count;
      var t: nat := |g.strict|;
      while t > 0
        invariant t <= |g.strict| && Tracked() && count' == Count()
        invariant forall j :: 0 <= j < |g.links| && old(isMpr[j]) ==> isMpr[j]
        invariant forall j :: 0 <= j < |g.links| && isMpr[j] ==>
                    old(isMpr[j]) || (g.sym[j] && g.will[j] == w && Needed(g, j))
        invariant forall u: nat, j: nat :: t <= u && NeededFor(g, u, j, w) ==> isMpr[j]
      {
        t := t - 1;
        if g.strict[t] {
          var only := OnlyNeighbour(t);
          if only.Some? && g.will[only.value] == w && g.sym[only.value] && !isMpr[only.value] {
            count' := Choose(only.value, count');
          }
        }
      }
      forall j: nat | j < |g.links| && g.sym[j] && g.will[j] == w && Needed(g, j) ensures isMpr[j] {
        var u :| 0 <= u < |g.strict| && g.strict[u] && OnlyWay(g, u, j);
        assert NeededFor(g, u, j, w);
      }
    }

    /** `olsr_find_maximum_covered` */
    method FindMaximum(w: nat) returns (best: Option<nat>)
      requires Tracked()
      ensures best == Best(g, isMpr[..], coverage, w, |g.links|)
    {
      best := None;
      var maximum := 0;
      for i := 0 to |g.links|
        invariant best == Best(g, isMpr[..], coverage, w, i)
        invariant maximum == if best.Some? then Left(g, isMpr[..], coverage, best.value) else 0
      {
        assert nocov[..][i] == Rest(g, covered[..], coverage, i) && covered[..] == Covers(g, isMpr[..]);
        if !isMpr[i] && g.will[i] == w && maximum < nocov[i] {
          maximum, best := nocov[i], Some(i);
        }
      }
    }

    /** The greedy loop for one willingness; `full` when enough is covered. */
    method AddGreedy(w: nat, twoHopCount: nat, count: nat) returns (count': nat, full: bool)
      requires Tracked() && count == Count() && twoHopCount == Goal(g)
      modifies isMpr, covered, nocov
      ensures Tracked() && count' == Count()
      ensures Outcome(isMpr[..], full) == Greedy(g, old(isMpr[..]), coverage, w)
    {
      count', full := count, false;
      var best: Option<nat> := FindMaximum(w);
      while best.Some?
        invariant Tracked() && count' == Count() && best == Best(g, isMpr[..], coverage, w, |g.links|)
        invariant Greedy(g, old(isMpr[..]), coverage, w) == Greedy(g, isMpr[..], coverage, w)
        decreases Sum(Open(isMpr[..])), best.Some?
      {
        ghost var chosen := isMpr[..];
        OpenShrinks(chosen, best.value);
        count' := Choose(best.value, count');
        CountIsTotal();
        if count' >= twoHopCount {
          full := true;
          return;
        }
        best := FindMaximum(w);
      }
    }

    lemma CountIsTotal()
      requires Tracked()
      ensures Count() == Total(g, isMpr[..], coverage)
    {
      assert covered[..] == Covers(g, isMpr[..]);
    }

    /** The neighbours of willingness `w`: first those that are the only way somewhere, then greedily. */
    method AddWilling(w: nat, twoHopCount: nat, count: nat) returns (count': nat, full: bool)
      requires Tracked() && count == Count() && twoHopCount == Goal(g)
      modifies isMpr, covered, nocov
      ensures Tracked() && count' == Count()
      ensures Outcome(isMpr[..], full) == RoundOf(g, coverage)(old(isMpr[..]), w)
    {
      count' := AddOneLink(w, count);
      CountIsTotal();
      if count' >= twoHopCount {
        full := true;
      } else {
        count', full := AddGreedy(w, twoHopCount, count');
      }
    }

    /** The rounds of falling willingness. */
    method AddRounds(twoHopCount: nat, count: nat) returns (early: bool)
      requires Tracked() && count == Count() && twoHopCount == Goal(g)
      modifies isMpr, covered, nocov
      ensures Tracked() && Outcome(isMpr[..], early) == Rounds(RoundOf(g, coverage), old(isMpr[..]), WILL_ALWAYS - 1)
    {
      ghost var round := RoundOf(g, coverage);
      ghost var result := Rounds(round, isMpr[..], WILL_ALWAYS - 1);
      early := false;
      var covering := count;
      var w: nat := WILL_ALWAYS - 1;
      while w > 0 && !early
        invariant Tracked() && covering == Count()
        invariant result == if early then Outcome(isMpr[..], true) else Rounds(round, isMpr[..], w)
        decreases w, !early
      {
        covering, early := AddWilling(w, twoHopCount, covering);
        w := w - 1;
      }
    }

    /** `olsr_calculate_mpr` up to the optimisation: the counters agree with the choice throughout, and
        the choice is the one on values. */
    method Calculate() returns (early: bool)
      requires Shape()
      modifies isMpr, covered, nocov
      ensures Tracked() && Outcome(isMpr[..], early) == Selected(g, coverage)
    {
      Clear();
      var twoHopCount := CountTwoHop();
      RemainingAtStart(g, nocov[..], covered[..], coverage);
      var count := AddWillAlways();
      early := AddRounds(twoHopCount, count);
    }
  }

  // ---------------------------------------------------------------- what the selection covers

  /** Everybody chosen before stays chosen. */
  predicate Grown(before: seq<bool>, after: seq<bool>) {
    |before| == |after| && forall j :: 0 <= j < |before| && before[j] ==> after[j]
  }

  lemma {:induction false} CoveringGrows(g: Graph, before: seq<bool>, after: seq<bool>, t: nat, i: nat)
    requires WellFormed(g) && |before| == |g.links| && Grown(before, after) && i <= |g.links| && t < |g.strict|
    ensures Covering(g, before, t, i) <= Covering(g, after, t, i)
  {
    if i > 0 {
      CoveringGrows(g, before, after, t, i - 1);
    }
  }

  lemma {:induction false} ExcessGrows(g: Graph, before: seq<nat>, after: seq<nat>, coverage: nat, j: nat, k: nat)
    requires WellFormed(g) && |before| == |after| == |g.strict| && j < |g.links| && k <= |g.links[j]|
    requires forall t :: 0 <= t < |before| ==> before[t] <= after[t]
    ensures ExcessBehind(g, before, coverage, j, k) <= ExcessBehind(g, after, coverage, j, k)
  {
    if k > 0 {
      ExcessGrows(g, before, after, coverage, j, k - 1);
    }
  }

  /** Choosing more never leaves more to cover. */
  lemma LeftFalls(g: Graph, before: seq<bool>, after: seq<bool>, coverage: nat, j: nat)
    requires WellFormed(g) && |before| == |g.links| && Grown(before, after) && j < |g.links|
    ensures Left(g, after, coverage, j) <= Left(g, before, coverage, j)
  {
    var a, b := Covers(g, before), Covers(g, after);
    forall t | 0 <= t < |a| ensures a[t] <= b[t] {
      CoveringGrows(g, before, after, t, |g.links|);
    }
    ExcessGrows(g, a, b, coverage, j, |g.links[j]|);
  }

  /** Who can be chosen at all: a willing symmetric neighbour, and one that is not symmetric if it is
      willing, but not always, and stands behind a symmetric one with strict two-hop neighbours. */
  predicate Choosable(g: Graph, j: nat)
    requires WellFormed(g) && j < |g.links|
  {
    if g.sym[j] then 0 < g.will[j] <= WILL_ALWAYS else 0 < g.will[j] < WILL_ALWAYS && Met(g, j) > 0
  }

  /** Where the selection stands when the willingnesses above `w` are done: only choosable neighbours are
      chosen, everybody needed is, and nobody has anything left to cover that is not. */
  predicate Settled(g: Graph, chosen: seq<bool>, coverage: nat, w: nat)
    requires WellFormed(g) && |chosen| == |g.links|
  {
    && (forall j :: 0 <= j < |g.links| && chosen[j] ==> Choosable(g, j))
    && (forall j :: 0 <= j < |g.links| && g.sym[j] && g.will[j] == WILL_ALWAYS ==> chosen[j])
    && (forall j :: 0 <= j < |g.links| && g.sym[j] && w < g.will[j] <= WILL_ALWAYS && Needed(g, j) ==> chosen[j])
    && (forall j :: 0 <= j < |g.links| && w < g.will[j] < WILL_ALWAYS && Left(g, chosen, coverage, j) > 0 ==> chosen[j])
  }

  /** An early end: enough is covered, and only choosable neighbours are chosen. */
  predicate Stopped(g: Graph, chosen: seq<bool>, coverage: nat)
    requires WellFormed(g) && |chosen| == |g.links|
  {
    Total(g, chosen, coverage) >= Goal(g) && forall j :: 0 <= j < |g.links| && chosen[j] ==> Choosable(g, j)
  }

  /** Only choosable neighbours of willingness `w` are added. */
  predicate Widened(g: Graph, before: seq<bool>, after: seq<bool>, w: nat)
    requires WellFormed(g)
  {
    && |before| == |after| == |g.links| && Grown(before, after)
    && forall j :: 0 <= j < |g.links| && after[j] && !before[j] ==> g.will[j] == w && Choosable(g, j)
  }

  lemma {:induction false} GreedyEnds(g: Graph, chosen: seq<bool>, coverage: nat, w: nat)
    requires WellFormed(g) && |chosen| == |g.links| && 0 < w < WILL_ALWAYS
    ensures var r := Greedy(g, chosen, coverage, w);
      && Widened(g, chosen, r.chosen, w)
      && (if r.full then Total(g, r.chosen, coverage) >= Goal(g)
          else forall j :: 0 <= j < |g.links| && g.will[j] == w && Left(g, r.chosen, coverage, j) > 0 ==> r.chosen[j])
    decreases Sum(Open(chosen))
  {
    var b := Best(g, chosen, coverage, w, |g.links|);
    if b.Some? {
      OpenShrinks(chosen, b.value);
      if Total(g, chosen[b.value := true], coverage) < Goal(g) {
        GreedyEnds(g, chosen[b.value := true], coverage, w);
      }
    } else {
      assert forall j :: 0 <= j < |g.links| ==> !Eligible(g, chosen, coverage, w, j);
    }
  }

  lemma RoundEnds(g: Graph, chosen: seq<bool>, coverage: nat, w: nat, r: Outcome)
    requires WellFormed(g) && |chosen| == |g.links| && 0 < w < WILL_ALWAYS && Settled(g, chosen, coverage, w)
    requires r == RoundOf(g, coverage)(chosen, w)
    ensures |r.chosen| == |g.links|
    ensures if r.full then Stopped(g, r.chosen, coverage) else Settled(g, r.chosen, coverage, w - 1)
  {
    var next := WithNeeded(g, chosen, w);
    if Total(g, next, coverage) < Goal(g) {
      GreedyEnds(g, next, coverage, w);
      SettledNext(g, chosen, r.chosen, coverage, w);
    }
  }

  lemma SettledNext(g: Graph, before: seq<bool>, after: seq<bool>, coverage: nat, w: nat)
    requires WellFormed(g) && |before| == |g.links| && 0 < w < WILL_ALWAYS && Settled(g, before, coverage, w)
    requires Widened(g, WithNeeded(g, before, w), after, w)
    ensures forall j :: 0 <= j < |g.links| && after[j] ==> Choosable(g, j)
    ensures (forall j :: 0 <= j < |g.links| && g.will[j] == w && Left(g, after, coverage, j) > 0 ==> after[j]) ==>
              Settled(g, after, coverage, w - 1)
  {
    forall j | 0 <= j < |g.links| && w < g.will[j] < WILL_ALWAYS && Left(g, after, coverage, j) > 0 ensures after[j] {
      LeftFalls(g, before, after, coverage, j);
    }
  }

  lemma {:induction false} RoundsEnd(g: Graph, coverage: nat, round: (seq<bool>, nat) -> Outcome, chosen: seq<bool>, w: nat)
    requires WellFormed(g) && |chosen| == |g.links| && w < WILL_ALWAYS && Settled(g, chosen, coverage, w)
    requires round == RoundOf(g, coverage)
    ensures var r := Rounds(round, chosen, w);
      |r.chosen| == |g.links| && if r.full then Stopped(g, r.chosen, coverage) else Settled(g, r.chosen, coverage, 0)
    decreases w
  {
    if w > 0 {
      var r := round(chosen, w);
      RoundEnds(g, chosen, coverage, w, r);
      if !r.full {
        RoundsEnd(g, coverage, round, r.chosen, w - 1);
      }
    }
  }

  /** Both ends of the selection, for every graph and every required coverage. */
  lemma SelectedEnds(g: Graph, coverage: nat)
    requires WellFormed(g)
    ensures var r := Selected(g, coverage);
      if r.full then Stopped(g, r.chosen, coverage) else Settled(g, r.chosen, coverage, 0)
  {
    RoundsEnd(g, coverage, RoundOf(g, coverage), Always(g), WILL_ALWAYS - 1);
  }

  /** No neighbour that can be chosen without being symmetric has a strict two-hop neighbour. */
  predicate NoFalseCover(g: Graph)
    requires WellFormed(g)
  {
    forall i, k :: 0 <= i < |g.links| && !g.sym[i] && Choosable(g, i) && 0 <= k < |g.links[i]| ==> !g.strict[g.links[i][k]]
  }

  /** An early end covers: unless some choosable neighbour that is not symmetric has a strict two-hop
      neighbour, every strict two-hop neighbour within reach is then covered as often as required, by all
      symmetric neighbours that lead to it, and the required coverage is one. */
  lemma EarlyEndCovers(g: Graph, coverage: nat, t: nat)
    requires WellFormed(g) && coverage >= 1 && NoFalseCover(g) && Selected(g, coverage).full
    requires t < |g.strict| && Reached(g, t, |g.links|)
    ensures coverage == 1 && AllChosen(g, Selected(g, coverage).chosen, t)
    ensures Covers(g, Selected(g, coverage).chosen)[t] >= coverage
  {
    var chosen := Selected(g, coverage).chosen;
    SelectedEnds(g, coverage);
    EarlyExit(g, chosen, Covers(g, chosen), coverage);
  }

  /** A willing symmetric neighbour that is the only way to some strict two-hop neighbour is chosen, after a
      normal end always and after an early one under the same condition. */
  lemma NeededSelected(g: Graph, coverage: nat, j: nat)
    requires WellFormed(g) && coverage >= 1 && j < |g.links| && g.sym[j] && 0 < g.will[j] <= WILL_ALWAYS && Needed(g, j)
    requires NoFalseCover(g) || !Selected(g, coverage).full
    ensures Selected(g, coverage).chosen[j]
  {
    var r := Selected(g, coverage);
    SelectedEnds(g, coverage);
    if r.full {
      var t :| 0 <= t < |g.strict| && g.strict[t] && OnlyWay(g, t, j);
      assert Reached(g, t, |g.links|);
      EarlyEndCovers(g, coverage, t);
    }
  }

  /** How many of the first `i` neighbours other than `j` lead to `t` and can be chosen. */
  function OtherWays(g: Graph, t: nat, j: nat, i: nat): nat
    requires WellFormed(g) && i <= |g.links| && t < |g.strict|
  {
    if i == 0 then 0
    else OtherWays(g, t, j, i - 1) + (if i - 1 != j && Choosable(g, i - 1) && t in g.links[i - 1] then 1 else 0)
  }

  lemma {:induction false} CoveringWithin(g: Graph, chosen: seq<bool>, t: nat, j: nat, i: nat)
    requires WellFormed(g) && |chosen| == |g.links| && i <= |g.links| && t < |g.strict| && j < |g.links| && !chosen[j]
    requires forall k :: 0 <= k < |g.links| && chosen[k] ==> Choosable(g, k)
    ensures Covering(g, chosen, t, i) <= OtherWays(g, t, j, i)
  {
    if i > 0 {
      CoveringWithin(g, chosen, t, j, i - 1);
    }
  }

  /** The most that the others can cover in excess among the first `k` two-hop neighbours behind `j`,
      other than `t`. */
  function ExcessBeside(g: Graph, coverage: nat, t: nat, j: nat, k: nat): nat
    requires WellFormed(g) && j < |g.links| && k <= |g.links[j]|
  {
    if k == 0 then 0
    else
      var u := g.links[j][k - 1];
      ExcessBeside(g, coverage, t, j, k - 1)
      + (if g.strict[u] && u != t then Excess(OtherWays(g, u, j, |g.links|), coverage) else 0)
  }

  lemma {:induction false} ExcessWithin(g: Graph, chosen: seq<bool>, coverage: nat, t: nat, j: nat, k: nat)
    requires WellFormed(g) && |chosen| == |g.links| && coverage >= 1 && j < |g.links| && k <= |g.links[j]|
    requires forall i :: 0 <= i < |g.links| && chosen[i] ==> Choosable(g, i)
    requires !chosen[j] && t < |g.strict| && Covers(g, chosen)[t] < coverage
    ensures ExcessBehind(g, Covers(g, chosen), coverage, j, k) <= ExcessBeside(g, coverage, t, j, k)
  {
    if k > 0 {
      ExcessWithin(g, chosen, coverage, t, j, k - 1);
      CoveringWithin(g, chosen, g.links[j][k - 1], j, |g.links|);
    }
  }

  /** When a normal end covers, told from the input: `t` is covered as often as required, or by every
      willing symmetric neighbour that leads to it and that the others cannot use up. */
  lemma NormalEndCovers(g: Graph, coverage: nat, t: nat, j: nat)
    requires WellFormed(g) && coverage >= 1 && !Selected(g, coverage).full
    requires j < |g.links| && g.sym[j] && 0 < g.will[j] <= WILL_ALWAYS && t < |g.strict| && g.strict[t] && t in g.links[j]
    requires g.will[j] == WILL_ALWAYS || ExcessBeside(g, coverage, t, j, |g.links[j]|) < Behind(g, j + 1)
    ensures var r := Selected(g, coverage); Covers(g, r.chosen)[t] >= 1 && (Covers(g, r.chosen)[t] >= coverage || r.chosen[j])
  {
    var chosen := Selected(g, coverage).chosen;
    SelectedEnds(g, coverage);
    if Covers(g, chosen)[t] < coverage {
      if !chosen[j] {
        ExcessWithin(g, chosen, coverage, t, j, |g.links[j]|);
      }
      ChosenCovers(g, chosen, t, j, |g.links|);
    }
  }

  /** Whichever way it ends, told from the input alone. */
  lemma SelectionCovers(g: Graph, coverage: nat, t: nat, j: nat)
    requires WellFormed(g) && coverage >= 1 && NoFalseCover(g)
    requires j < |g.links| && g.sym[j] && 0 < g.will[j] <= WILL_ALWAYS && t < |g.strict| && g.strict[t] && t in g.links[j]
    requires g.will[j] == WILL_ALWAYS || ExcessBeside(g, coverage, t, j, |g.links[j]|) < Behind(g, j + 1)
    ensures Covers(g, Selected(g, coverage).chosen)[t] >= 1
  {
    if Selected(g, coverage).full {
      assert Reached(g, t, |g.links|);
      EarlyEndCovers(g, coverage, t);
    } else {
      NormalEndCovers(g, coverage, t, j);
    }
  }

  lemma {:induction false} ChosenCovers(g: Graph, chosen: seq<bool>, t: nat, j: nat, i: nat)
    requires WellFormed(g) && |chosen| == |g.links| && j < i <= |g.links| && t < |g.strict|
    requires chosen[j] && g.strict[t] && t in g.links[j]
    ensures Covering(g, chosen, t, i) >= 1
  {
    if j < i - 1 {
      ChosenCovers(g, chosen, t, j, i - 1);
    }
  }

  // ---------------------------------------------------------------- two runs that leave somebody out

  /** An early end that comes too soon: the neighbour that is not symmetric makes up the count with
      two-hop neighbour 1, and the only one leading to 0 is not chosen. */
  lemma EarlyEndMisses()
    ensures var g := FalseCover();
      && WellFormed(g) && Selected(g, 1) == Outcome([false, true], true)
      && Reached(g, 0, 2) && Covers(g, [false, true])[0] == 0
  {
    var g := FalseCover();
    assert g.links[1][0] == 1 && g.links[0][0] == 0;
    FalseCoverCounts(g);
    FalseCoverRun(g);
  }

  /** A symmetric neighbour, and a more willing one that is not. */
  function FalseCover(): Graph {
    Graph([[0], [1]], [true, false], [3, 6], [true, true])
  }

  lemma FalseCoverCounts(g: Graph)
    requires WellFormed(g) && |g.links| == |g.strict| == 2 && g.strict[0] && g.strict[1] && g.sym[0] && !g.sym[1]
    requires g.links[0] == [0] && g.links[1] == [1]
    ensures Met(g, 1) == 1 && Goal(g) == 1 && Reached(g, 0, 2)
    ensures Total(g, [false, false], 1) == 0
    ensures Covers(g, [false, true])[0] == 0 && Total(g, [false, true], 1) == 1
  {
    assert 0 in g.links[0] && 1 !in g.links[0] && 0 !in g.links[1] && 1 in g.links[1];
    assert Reached(g, 0, 1) && !Reached(g, 1, 1) && !Reached(g, 1, 2);
    TwoEntries(Marks(MetBefore(g, 1)));
    assert Weight(g, 0, 1) == 1 && Weight(g, 1, 1) == 0;
    TwoEntries(Weights(g, 2));
    forall t: nat, chosen: seq<bool> | t < 2 && |chosen| == 2 && !chosen[0]
      ensures Covers(g, chosen)[t] == if t == 1 && chosen[1] then 1 else 0
    {
      assert Covering(g, chosen, t, 1) == 0;
    }
    TwoEntries(Excesses(Covers(g, [false, false]), 1));
    TwoEntries(Excesses(Covers(g, [false, true]), 1));
  }

  lemma FalseCoverRun(g: Graph)
    requires WellFormed(g) && |g.links| == 2 && g.sym[0] && !g.sym[1] && g.will == [3, 6] && Met(g, 1) == 1
    requires Total(g, [false, false], 1) == 0 && Total(g, [false, true], 1) == Goal(g) == 1
    ensures Selected(g, 1) == Outcome([false, true], true)
  {
    var none := [false, false];
    assert Always(g) == none && WithNeeded(g, none, 6) == none;
    assert Eligible(g, none, 1, 6, 1) && !Eligible(g, none, 1, 6, 0);
    assert Best(g, none, 1, 6, 2) == Some(1);
    assert none[1 := true] == [false, true];
    assert RoundOf(g, 1)(none, 6) == Greedy(g, none, 1, 6) == Outcome([false, true], true);
  }

  lemma TwoEntries(s: seq<nat>)
    requires |s| == 2
    ensures Sum(s) == s[0] + s[1]
  {
    assert s == [s[0]] + [s[1]];
    SumAppend([s[0]], [s[1]]);
    assert [s[0]][..0] == [] && [s[1]][..0] == [];
  }

  /** A normal end that leaves somebody out: the excess on two-hop neighbours 0 and 1 uses up what
      neighbours 0 and 1 had to cover, although nobody else leads to two-hop neighbour 2. */
  lemma NormalEndMisses()
    ensures var g := UsedUp(); var chosen := [false, false, true, true, true];
      && WellFormed(g) && Selected(g, 1) == Outcome(chosen, false)
      && Reached(g, 2, 5) && Covers(g, chosen)[2] == 0
  {
    UsedUpLinks();
    UsedUpEnd(UsedUp(), [false, false, true, true, false], [false, false, true, true, true]);
  }

  lemma UsedUpEnd(g: Graph, first: seq<bool>, second: seq<bool>)
    requires UsedUpShape(g) && first == [false, false, true, true, false] && second == [false, false, true, true, true]
    ensures Selected(g, 1) == Outcome(second, false)
    ensures Reached(g, 2, 5) && Covers(g, second)[2] == 0
  {
    UsedUpFirst(g, first);
    UsedUpSecond(g, second);
    NobodyNeeded(g);
    UsedUpAlways(g, first);
    assert second == first[4 := true];
    PickRound(g, first, 1, 3, 4);
    UsedUpRun(g, first, second, RoundOf(g, 1));
  }

  /** Five symmetric neighbours, two of them always willing, and three strict two-hop neighbours. */
  function UsedUp(): Graph {
    Graph([[1, 2], [0, 1, 2], [1], [0, 1], [0, 1]], [true, true, true, true, true], [3, 3, 7, 7, 3], [true, true, true])
  }

  /** The links of that graph, one by one. */
  predicate UsedUpShape(g: Graph) {
    && WellFormed(g) && |g.links| == 5 && g.strict == [true, true, true] && (forall i :: 0 <= i < 5 ==> g.sym[i])
    && g.will[2] == g.will[3] == WILL_ALWAYS && g.will[0] == g.will[1] == g.will[4] == 3
    && g.links[0] == [1, 2] && g.links[1] == [0, 1, 2] && g.links[2] == [1] && g.links[3] == g.links[4] == [0, 1]
    && forall t: nat :: t < 3 ==> (t in g.links[2] <==> t == 1) && (t in g.links[3] <==> t < 2) && (t in g.links[4] <==> t < 2)
  }

  lemma UsedUpLinks()
    ensures UsedUpShape(UsedUp())
  {
    var l := UsedUp().links;
    assert l[2][0] == 1 && l[3][0] == 0 && l[3][1] == 1 && l[4][0] == 0 && l[4][1] == 1;
  }

  lemma CoveringNext(g: Graph, chosen: seq<bool>, t: nat, i: nat, hit: bool)
    requires WellFormed(g) && |chosen| == |g.links| && i < |g.links| && t < |g.strict|
    requires hit == (chosen[i] && g.strict[t] && t in g.links[i])
    ensures Covering(g, chosen, t, i + 1) == Covering(g, chosen, t, i) + (if hit then 1 else 0)
  {
  }

  /** The counters when neighbours 0 and 1 are not chosen, and 2 and 3 are. */
  lemma UsedUpCovers(g: Graph, chosen: seq<bool>, t: nat)
    requires UsedUpShape(g) && |chosen| == 5 && !chosen[0] && !chosen[1] && chosen[2] && chosen[3] && t < 3
    ensures Covers(g, chosen)[t] == (if t == 0 then 1 else if t == 1 then 2 else 0) + (if chosen[4] && t < 2 then 1 else 0)
  {
    CoveringNext(g, chosen, t, 0, false);
    CoveringNext(g, chosen, t, 1, false);
    CoveringNext(g, chosen, t, 2, t == 1);
    CoveringNext(g, chosen, t, 3, t < 2);
    CoveringNext(g, chosen, t, 4, chosen[4] && t < 2);
  }

  lemma {:induction false} AllStrict(g: Graph, i: nat, k: nat)
    requires WellFormed(g) && i < |g.links| && k <= |g.links[i]| && forall t :: 0 <= t < |g.strict| ==> g.strict[t]
    ensures StrictIn(g, i, k) == k
  {
    if k > 0 {
      AllStrict(g, i, k - 1);
    }
  }

  lemma BehindNext(g: Graph, i: nat)
    requires WellFormed(g) && i < |g.links| && g.sym[i] && forall t :: 0 <= t < |g.strict| ==> g.strict[t]
    ensures Behind(g, i + 1) == Behind(g, i) + |g.links[i]|
  {
    AllStrict(g, i, |g.links[i]|);
  }

  lemma ExcessLink(g: Graph, covered: seq<nat>, j: nat, k: nat)
    requires WellFormed(g) && |covered| == |g.strict| && j < |g.links| && k < |g.links[j]| && g.strict[g.links[j][k]]
    ensures ExcessBehind(g, covered, 1, j, k + 1) == ExcessBehind(g, covered, 1, j, k) + covered[g.links[j][k]]
  {
  }

  /** What the three neighbours of willingness 3 have left to cover. */
  lemma UsedUpLeft(g: Graph, chosen: seq<bool>)
    requires UsedUpShape(g) && |chosen| == 5
    ensures var c := Covers(g, chosen);
      && Left(g, chosen, 1, 0) + c[1] + c[2] == 2 && Left(g, chosen, 1, 1) + c[0] + c[1] + c[2] == 5
      && Left(g, chosen, 1, 4) + c[0] + c[1] == 10
  {
    var c := Covers(g, chosen);
    BehindNext(g, 0);
    BehindNext(g, 1);
    BehindNext(g, 2);
    BehindNext(g, 3);
    BehindNext(g, 4);
    ExcessLink(g, c, 0, 0);
    ExcessLink(g, c, 0, 1);
    ExcessLink(g, c, 1, 0);
    ExcessLink(g, c, 1, 1);
    ExcessLink(g, c, 1, 2);
    ExcessLink(g, c, 4, 0);
    ExcessLink(g, c, 4, 1);
  }

  /** Not enough is covered as long as two-hop neighbour 2 is not. */
  lemma UsedUpGoal(g: Graph, chosen: seq<bool>)
    requires UsedUpShape(g) && |chosen| == 5 && Covers(g, chosen)[2] == 0
    ensures Reached(g, 2, 5) && Total(g, chosen, 1) < Goal(g)
  {
    assert g.links[0][1] == 2;
    assert Reached(g, 2, 5);
    EarlyExit(g, chosen, Covers(g, chosen), 1);
  }

  lemma UsedUpFirst(g: Graph, chosen: seq<bool>)
    requires UsedUpShape(g) && chosen == [false, false, true, true, false]
    ensures Total(g, chosen, 1) < Goal(g) && Best(g, chosen, 1, 3, 5) == Some(4)
  {
    UsedUpCovers(g, chosen, 0);
    UsedUpCovers(g, chosen, 1);
    UsedUpCovers(g, chosen, 2);
    UsedUpLeft(g, chosen);
    UsedUpGoal(g, chosen);
    assert Eligible(g, chosen, 1, 3, 4);
  }

  lemma UsedUpSecond(g: Graph, chosen: seq<bool>)
    requires UsedUpShape(g) && chosen == [false, false, true, true, true]
    ensures Total(g, chosen, 1) < Goal(g) && Best(g, chosen, 1, 3, 5) == None
    ensures Reached(g, 2, 5) && Covers(g, chosen)[2] == 0
  {
    UsedUpCovers(g, chosen, 0);
    UsedUpCovers(g, chosen, 1);
    UsedUpCovers(g, chosen, 2);
    UsedUpLeft(g, chosen);
    UsedUpGoal(g, chosen);
  }

  lemma GreedyNext(g: Graph, chosen: seq<bool>, coverage: nat, w: nat, n: nat)
    requires WellFormed(g) && |chosen| == |g.links| && Best(g, chosen, coverage, w, |g.links|) == Some(n)
    requires Total(g, chosen[n := true], coverage) < Goal(g)
    ensures Greedy(g, chosen, coverage, w) == Greedy(g, chosen[n := true], coverage, w)
  {
  }

  lemma GreedyDone(g: Graph, chosen: seq<bool>, coverage: nat, w: nat)
    requires WellFormed(g) && |chosen| == |g.links| && Best(g, chosen, coverage, w, |g.links|) == None
    ensures Greedy(g, chosen, coverage, w) == Outcome(chosen, false)
  {
  }

  lemma IdleRound(g: Graph, chosen: seq<bool>, coverage: nat, w: nat)
    requires WellFormed(g) && |chosen| == |g.links| && Total(g, chosen, coverage) < Goal(g)
    requires forall j :: 0 <= j < |g.links| ==> g.will[j] != w
    ensures RoundOf(g, coverage)(chosen, w) == Outcome(chosen, false)
  {
    assert WithNeeded(g, chosen, w) == chosen;
    GreedyDone(g, chosen, coverage, w);
  }

  lemma PickRound(g: Graph, chosen: seq<bool>, coverage: nat, w: nat, n: nat)
    requires WellFormed(g) && |chosen| == |g.links| && forall j :: 0 <= j < |g.links| ==> !Needed(g, j)
    requires Total(g, chosen, coverage) < Goal(g) && Best(g, chosen, coverage, w, |g.links|) == Some(n)
    requires Total(g, chosen[n := true], coverage) < Goal(g) && Best(g, chosen[n := true], coverage, w, |g.links|) == None
    ensures RoundOf(g, coverage)(chosen, w) == Outcome(chosen[n := true], false)
  {
    assert WithNeeded(g, chosen, w) == chosen;
    GreedyNext(g, chosen, coverage, w, n);
    GreedyDone(g, chosen[n := true], coverage, w);
  }

  /** Rounds that change nothing. */
  lemma {:induction false} IdleRounds(round: (seq<bool>, nat) -> Outcome, chosen: seq<bool>, w: nat, v: nat)
    requires v <= w && forall u: nat :: v < u <= w ==> round(chosen, u) == Outcome(chosen, false)
    ensures Rounds(round, chosen, w) == Rounds(round, chosen, v)
    decreases w
  {
    if v < w {
      assert round(chosen, w) == Outcome(chosen, false);
      IdleRounds(round, chosen, w - 1, v);
    }
  }

  /** A selection in which only the round of willingness `w` changes anything. */
  lemma OneRound(round: (seq<bool>, nat) -> Outcome, chosen: seq<bool>, w: nat, top: nat, next: seq<bool>)
    requires 0 < w <= top && round(chosen, w) == Outcome(next, false)
    requires forall u: nat :: w < u <= top ==> round(chosen, u) == Outcome(chosen, false)
    requires forall u: nat :: 0 < u < w ==> round(next, u) == Outcome(next, false)
    ensures Rounds(round, chosen, top) == Outcome(next, false)
  {
    IdleRounds(round, chosen, top, w);
    IdleRounds(round, next, w - 1, 0);
  }

  lemma UsedUpAlways(g: Graph, first: seq<bool>)
    requires UsedUpShape(g) && first == [false, false, true, true, false]
    ensures Always(g) == first && forall j :: 0 <= j < |g.links| ==> g.will[j] == 3 || g.will[j] == WILL_ALWAYS
  {
  }

  lemma UsedUpRun(g: Graph, first: seq<bool>, second: seq<bool>, round: (seq<bool>, nat) -> Outcome)
    requires WellFormed(g) && |first| == |second| == |g.links| && round == RoundOf(g, 1) && Always(g) == first
    requires forall j :: 0 <= j < |g.links| ==> g.will[j] == 3 || g.will[j] == WILL_ALWAYS
    requires Total(g, first, 1) < Goal(g) && Total(g, second, 1) < Goal(g) && round(first, 3) == Outcome(second, false)
    ensures Selected(g, 1) == Outcome(second, false)
  {
    forall u: nat | 3 < u <= WILL_ALWAYS - 1 ensures round(first, u) == Outcome(first, false) {
      IdleRound(g, first, 1, u);
    }
    forall u: nat | 0 < u < 3 ensures round(second, u) == Outcome(second, false) {
      IdleRound(g, second, 1, u);
    }
    OneRound(round, first, 3, WILL_ALWAYS - 1, second);
  }

  lemma NobodyNeeded(g: Graph)
    requires UsedUpShape(g)
    ensures forall j :: 0 <= j < 5 ==> !Needed(g, j)
  {
    assert g.links[0][0] == 1 && g.links[0][1] == 2 && g.links[1][0] == 0 && g.links[1][2] == 2 && g.links[2][0] == 1;
    forall j: nat, t: nat | j < 5 && t < 3 ensures !OnlyWay(g, t, j) {
      assert 0 in g.links[3] && 0 in g.links[4] && 1 in g.links[3] && 1 in g.links[4] && 2 in g.links[0] && 2 in g.links[1];
    }
  }

  lemma {:induction false} NothingChosen(g: Graph, chosen: seq<bool>, t: nat, i: nat)
    requires WellFormed(g) && |chosen| == |g.links| && i <= |g.links| && t < |g.strict|
    requires forall k :: 0 <= k < |chosen| ==> !chosen[k]
    ensures Covering(g, chosen, t, i) == 0
  {
    if i > 0 {
      NothingChosen(g, chosen, t, i - 1);
    }
  }
}

/** Link costs of the etx_ff link quality: the cost of a pair of qualities, the smoothed pair it is
    cached for, and the averages kept over it. */
module LinkCost {
  import opened Basics

  /** Below this quality, a tenth of 255 rounded down, a link is unusable. */
  const USEFUL: nat := 25

  /** Quality of a link in both directions. */
  datatype Pair = Pair(lq: Byte, nlq: Byte)

  /** `estimated`, `deviation` and `calculated` follow the cost. */
  datatype Link = Link(measured: Pair, smoothed: Pair, cost: nat, estimated: nat, deviation: nat, calculated: nat)

  // ---------------------------------------------------------------- the cost of a pair

  /** `default_lq_calc_cost_ff`, in ten-bit fixed point. */
  function CostOf(p: Pair): (c: nat)
  {
    if p.lq < USEFUL || p.nlq < USEFUL then LINK_COST_BROKEN
    else
      var cost := 255 * 255 * 1024 / (p.lq * p.nlq);
      if cost >= LINK_COST_BROKEN then LINK_COST_BROKEN else if cost == 0 then 1 else cost
  }

  /** A usable link costs between 1024 and 106536, so neither bound of the code is ever reached, and
      the cost is broken exactly when one direction is unusable. */
  lemma CostRange(p: Pair)
    ensures CostOf(p) == LINK_COST_BROKEN <==> p.lq < 25 || p.nlq < 25
    ensures p.lq >= 25 && p.nlq >= 25 ==>
              1024 <= CostOf(p) <= 106536 && CostOf(p) == 255 * 255 * 1024 / (p.lq * p.nlq)
  {
    if p.lq >= USEFUL && p.nlq >= USEFUL {
      Products(p.lq, 255, p.nlq, 255);
      Products(USEFUL, p.lq, USEFUL, p.nlq);
      Quotients(255 * 255 * 1024, 255 * 255 * 1024, p.lq * p.nlq, 255 * 255);
      Quotients(255 * 255 * 1024, 255 * 255 * 1024, USEFUL * USEFUL, p.lq * p.nlq);
    }
  }

  /** Better qualities never cost more. */
  lemma CostMonotone(p: Pair, q: Pair)
    requires p.lq <= q.lq && p.nlq <= q.nlq
    ensures CostOf(q) <= CostOf(p)
  {
    CostRange(p);
    CostRange(q);
    if p.lq >= USEFUL && p.nlq >= USEFUL {
      Products(p.lq, q.lq, p.nlq, q.nlq);
      Quotients(255 * 255 * 1024, 255 * 255 * 1024, p.lq * p.nlq, q.lq * q.nlq);
    }
  }

  // ---------------------------------------------------------------- one tick over all links

  /** The measured value is far enough from the smoothed one. */
  predicate Differs(smoothed: Byte, measured: Byte) {
    if smoothed < measured then measured == 255 || measured - smoothed > smoothed / 10
    else smoothed - measured > smoothed / 10
  }

  predicate Relevant(l: Link) {
    Differs(l.smoothed.lq, l.measured.lq) || Differs(l.smoothed.nlq, l.measured.nlq)
  }

  function Adopted(l: Link): Link {
    l.(smoothed := l.measured, cost := CostOf(l.measured))
  }

  /** The weights 0.875, 0.125 and 0.5 are exact in binary, so the truncated results are those of
      integer division. */
  function Averaged(l: Link): Link {
    var before := if l.cost > 10000 then l.cost else l.estimated;
    var estimated := (7 * before + l.cost) / 8;
    var distance := if estimated > l.cost then estimated - l.cost else l.cost - estimated;
    var deviation := (l.deviation + distance) / 2;
    l.(estimated := estimated, deviation := deviation, calculated := estimated + 2 * deviation)
  }

  function FirstPass(l: Link): Link {
    Averaged(if Relevant(l) then Adopted(l) else l)
  }

  predicate Perfect(p: Pair) {
    p == Pair(255, 255)
  }

  function SecondPass(l: Link): Link {
    if Perfect(l.smoothed) || l.smoothed == l.measured then l else Averaged(Adopted(l))
  }

  /** One link after a tick; `triggered` says whether any link changed relevantly. */
  function Ticked(l: Link, triggered: bool): Link {
    if triggered then SecondPass(FirstPass(l)) else FirstPass(l)
  }

  predicate AnyRelevant(links: seq<Link>) {
    exists i :: 0 <= i < |links| && Relevant(links[i])
  }

  /** `default_lq_ff_handle_lqchange` */
  method HandleChange(links: array<Link>) returns (triggered: bool)
    modifies links
    ensures triggered == AnyRelevant(old(links[..]))
    ensures forall i :: 0 <= i < links.Length ==> links[i] == Ticked(old(links[i]), triggered)
  {
    triggered := FirstRound(links);
    if triggered {
      SecondRound(links);
    }
  }

  method FirstRound(links: array<Link>) returns (triggered: bool)
    modifies links
    ensures triggered == AnyRelevant(old(links[..]))
    ensures forall i :: 0 <= i < links.Length ==> links[i] == FirstPass(old(links[i]))
  {
    triggered := false;
    var i := 0;
    while i < links.Length
      invariant 0 <= i <= links.Length
      invariant triggered == AnyRelevant(old(links[..])[..i])
      invariant forall k :: 0 <= k < i ==> links[k] == FirstPass(old(links[k]))
      invariant forall k :: i <= k < links.Length ==> links[k] == old(links[k])
    {
      var l := links[i];
      var d := l.smoothed;
      var relevant := false;
      if d.lq < l.measured.lq {
        if l.measured.lq == 255 || l.measured.lq - d.lq > d.lq / 10 {
          relevant := true;
        }
      } else if d.lq > l.measured.lq {
        if d.lq - l.measured.lq > d.lq / 10 {
          relevant := true;
        }
      }
      if d.nlq < l.measured.nlq {
        if l.measured.nlq == 255 || l.measured.nlq - d.nlq > d.nlq / 10 {
          relevant := true;
        }
      } else if d.nlq > l.measured.nlq {
        if d.nlq - l.measured.nlq > d.nlq / 10 {
          relevant := true;
        }
      }
      assert relevant == Relevant(l);
      AnyRelevantNext(old(links[..]), i);
      if relevant {
        l := Adopted(l);
        triggered := true;
      }
      links[i] := Averaged(l);
      i := i + 1;
    }
    assert old(links[..])[..i] == old(links[..]);
  }

  method SecondRound(links: array<Link>)
    modifies links
    ensures forall i :: 0 <= i < links.Length ==> links[i] == SecondPass(old(links[i]))
  {
    var i := 0;
    while i < links.Length
      invariant 0 <= i <= links.Length
      invariant forall k :: 0 <= k < i ==> links[k] == SecondPass(old(links[k]))
      invariant forall k :: i <= k < links.Length ==> links[k] == old(links[k])
    {
      var l := links[i];
      if !Perfect(l.smoothed) && l.smoothed != l.measured {
        links[i] := Averaged(Adopted(l));
      }
      i := i + 1;
    }
  }

  lemma AnyRelevantNext(links: seq<Link>, i: nat)
    requires i < |links|
    ensures AnyRelevant(links[..i + 1]) <==> AnyRelevant(links[..i]) || Relevant(links[i])
  {
    var now, next := links[..i], links[..i + 1];
    assert next[i] == links[i];
    if AnyRelevant(now) {
      var k :| 0 <= k < |now| && Relevant(now[k]);
      assert next[k] == now[k];
    }
    if AnyRelevant(next) {
      var k :| 0 <= k < |next| && Relevant(next[k]);
      assert k < i ==> now[k] == next[k];
    }
  }

  // ---------------------------------------------------------------- the cache

  /** A link as it is created. */
  function Created(): Link {
    Link(Pair(0, 0), Pair(0, 0), LINK_COST_BROKEN, LINK_COST_BROKEN, 0, 0)
  }

  predicate Cached(l: Link) {
    l.cost == CostOf(l.smoothed)
  }

  /** The smoothed value is within a tenth of itself of the measured one, and 255 is never missed. */
  predicate Close(smoothed: Byte, measured: Byte) {
    && measured <= smoothed + smoothed / 10 && smoothed - smoothed / 10 <= measured
    && (measured == 255 ==> smoothed == 255)
  }

  /** What happens to a link: a tick, a new measurement, or a hello with the neighbour's quality. */
  datatype LinkEvent = Tick(triggered: bool) | Measure(lq: Byte) | Foreign(nlq: Byte)

  function NextLink(l: Link, e: LinkEvent): Link {
    match e
    case Tick(triggered) => Ticked(l, triggered || Relevant(l))
    case Measure(lq) => l.(measured := l.measured.(lq := lq))
    case Foreign(nlq) => l.(measured := l.measured.(nlq := nlq))
  }

  function AfterLinkEvents(events: seq<LinkEvent>): Link {
    if events == [] then Created() else NextLink(AfterLinkEvents(events[..|events| - 1]), events[|events| - 1])
  }

  lemma {:induction false} CacheAgrees(events: seq<LinkEvent>)
    ensures Cached(AfterLinkEvents(events))
  {
    if events != [] {
      CacheAgrees(events[..|events| - 1]);
    }
  }

  /** After a tick the smoothed pair is close to the measured one; when some link changed relevantly
      it is equal, unless it is perfect. */
  lemma TickIsClose(l: Link, triggered: bool)
    requires Relevant(l) ==> triggered
    ensures var t := Ticked(l, triggered);
      && t.measured == l.measured
      && Close(t.smoothed.lq, t.measured.lq) && Close(t.smoothed.nlq, t.measured.nlq)
      && (triggered ==> t.smoothed == t.measured || Perfect(t.smoothed))
  {
  }

  /** What a tick adopts when nothing else changed: the measured pair, if it is off by more than a tenth of the smoothed
      value in one direction or reaches 255 in one; otherwise the smoothed pair and its cost stay as they are. */
  lemma AdoptedExactly(l: Link)
    ensures var t, s, m := Ticked(l, false), l.smoothed, l.measured;
      if || (s.lq < m.lq && m.lq == 255) || m.lq > s.lq + s.lq / 10 || m.lq + s.lq / 10 < s.lq
         || (s.nlq < m.nlq && m.nlq == 255) || m.nlq > s.nlq + s.nlq / 10 || m.nlq + s.nlq / 10 < s.nlq
      then t.smoothed == m && t.cost == CostOf(m)
      else t.smoothed == s && t.cost == l.cost
  {
  }

  /** When any link changed relevantly, the others follow: a link that did not change relevantly itself adopts its
      measured pair as well, unless that is no change or its smoothed pair is perfect, and is averaged a second time. */
  lemma OthersFollow(l: Link)
    requires !Relevant(l)
    ensures var t, quiet := Ticked(l, true), Ticked(l, false);
      if l.smoothed == l.measured || l.smoothed == Pair(255, 255) then t == quiet
      else t == Averaged(quiet.(smoothed := l.measured, cost := CostOf(l.measured))) && t.smoothed == l.measured
  {
  }

  /** One that did is adopted and averaged once. */
  lemma RelevantOnce(l: Link)
    requires Relevant(l)
    ensures Ticked(l, true) == Ticked(l, false) == Averaged(l.(smoothed := l.measured, cost := CostOf(l.measured)))
  {
  }

  // ---------------------------------------------------------------- settling

  /** The averages after `n` more ticks at an unchanged cost. */
  function Averages(l: Link, n: nat): (r: Link)
    ensures r.cost == l.cost
  {
    if n == 0 then l else Averaged(Averages(l, n - 1))
  }

  function Distance(l: Link): nat {
    if l.estimated > l.cost then l.estimated - l.cost else l.cost - l.estimated
  }

  function Pow(b: nat, n: nat): nat {
    if n == 0 then 1 else b * Pow(b, n - 1)
  }

  /** One tick moves the estimate towards the cost and never past it. */
  lemma StepTowards(l: Link)
    ensures var a := Averaged(l);
      && 8 * Distance(a) <= 7 * Distance(l) + 7 && Distance(a) <= Distance(l)
      && (l.estimated >= l.cost ==> a.cost <= a.estimated <= l.estimated && 8 * Distance(a) <= 7 * Distance(l))
      && (l.estimated <= l.cost ==> l.estimated <= a.estimated <= a.cost)
      && 2 * a.deviation <= l.deviation + Distance(a)
  {
  }

  /** The averages after a tick, as rounded weighted means: seven eighths of the old estimate and one eighth of the
      cost, half the old deviation and half the new distance. The estimate of a cost above 10000 is the cost itself. */
  lemma AveragedExactly(l: Link)
    ensures var a := Averaged(l);
      && a == l.(estimated := a.estimated, deviation := a.deviation, calculated := a.calculated)
      && (l.cost <= 10000 ==> 8 * a.estimated <= 7 * l.estimated + l.cost < 8 * a.estimated + 8)
      && (l.cost > 10000 ==> a.estimated == l.cost && a.deviation == l.deviation / 2)
      && 2 * a.deviation <= l.deviation + Distance(a) < 2 * a.deviation + 2
      && a.calculated == a.estimated + 2 * a.deviation
  {
  }

  /** The calculated cost is a cautious one: up to rounding it is never below the cost plus the deviation before the
      tick, nor below the estimate. */
  lemma CalculatedIsCautious(l: Link)
    ensures var a := Averaged(l); a.calculated + 1 >= a.cost + l.deviation && a.calculated >= a.estimated
  {
    AveragedExactly(l);
  }

  /** A cost that swings shows in the deviation: after two ticks at costs that differ by `d`, neither above 10000, the
      deviation is at least a quarter of that, up to rounding. */
  lemma SwingShows(l: Link, c: nat)
    requires l.cost <= 10000 && c <= 10000
    ensures var first := Averaged(l); var second := Averaged(first.(cost := c));
      4 * second.deviation + 5 >= if c > l.cost then c - l.cost else l.cost - c
  {
    var first := Averaged(l);
    var second := Averaged(first.(cost := c));
    AveragedExactly(l);
    AveragedExactly(first.(cost := c));
    assert first.cost == l.cost && second.cost == c;
  }

  /** From above, the estimate approaches the cost geometrically. */
  lemma {:induction false} GeometricApproach(l: Link, n: nat)
    requires l.estimated >= l.cost
    ensures Averages(l, n).estimated >= l.cost
    ensures Pow(8, n) * (Averages(l, n).estimated - l.cost) <= Pow(7, n) * (l.estimated - l.cost)
  {
    if n > 0 {
      GeometricApproach(l, n - 1);
      var before, after := Averages(l, n - 1), Averages(l, n);
      StepTowards(before);
      ApproachNext(Pow(8, n - 1), Pow(7, n - 1), l.estimated - l.cost, before.estimated - l.cost, after.estimated - l.cost);
    }
  }

  lemma Chain(p: nat, x: nat, bound: nat, y: nat)
    requires p * x <= bound && 8 * y <= 7 * x
    ensures 8 * p * y <= 7 * bound
  {
    assert p * (8 * y) <= p * (7 * x) by { Products(p, p, 8 * y, 7 * x); }
  }

  lemma ApproachNext(p: nat, q: nat, start: nat, x: nat, y: nat)
    requires p * x <= q * start && 8 * y <= 7 * x
    ensures 8 * p * y <= 7 * q * start
  {
    Chain(p, x, q * start, y);
    Reassociate(7, q, start);
  }

  /** The stability filter accepts a link whose deviation is at most this. */
  const LIMIT: nat := 4000

  /** Ticks after which a distance has come down to the limit: six for each halving. */
  function TicksToClose(distance: nat): nat {
    if distance <= LIMIT then 0 else 6 + TicksToClose(distance / 2)
  }

  /** Ticks after which a deviation has come down to the limit, once the distance has. */
  function TicksToCalm(deviation: nat): nat
    decreases deviation
  {
    if deviation <= LIMIT then 0 else 1 + TicksToCalm((deviation + LIMIT) / 2)
  }

  /** How distance and deviation change in one tick, whatever the estimate itself does. */
  predicate Settling(distance: nat -> nat, deviation: nat -> nat, n: nat) {
    && 8 * distance(n + 1) <= 7 * distance(n) + 7 && distance(n + 1) <= distance(n)
    && 2 * deviation(n + 1) <= deviation(n) + distance(n + 1)
  }

  lemma {:induction false} DistanceShrinks(distance: nat -> nat, deviation: nat -> nat, m: nat, n: nat)
    requires forall k: nat :: Settling(distance, deviation, k)
    ensures distance(m + n) <= distance(m)
  {
    if n > 0 {
      DistanceShrinks(distance, deviation, m, n - 1);
      assert Settling(distance, deviation, m + n - 1);
    }
  }

  /** Six ticks halve a large distance. */
  lemma SixTicks(distance: nat -> nat, deviation: nat -> nat, m: nat)
    requires forall k: nat :: Settling(distance, deviation, k)
    requires distance(m) > LIMIT
    ensures distance(m + 6) <= distance(m) / 2
  {
    assert Settling(distance, deviation, m) && Settling(distance, deviation, m + 1);
    assert Settling(distance, deviation, m + 2) && Settling(distance, deviation, m + 3);
    assert Settling(distance, deviation, m + 4) && Settling(distance, deviation, m + 5);
  }

  lemma {:induction false} ClosePhase(distance: nat -> nat, deviation: nat -> nat, m: nat, bound: nat, n: nat)
    requires forall k: nat :: Settling(distance, deviation, k)
    requires distance(m) <= bound && n >= TicksToClose(bound)
    ensures distance(m + n) <= LIMIT
    decreases bound
  {
    DistanceShrinks(distance, deviation, m, n);
    if distance(m) > LIMIT {
      SixTicks(distance, deviation, m);
      ClosePhase(distance, deviation, m + 6, bound / 2, n - 6);
    }
  }

  lemma {:induction false} CalmPhase(distance: nat -> nat, deviation: nat -> nat, m: nat, bound: nat, n: nat)
    requires forall k: nat :: Settling(distance, deviation, k)
    requires distance(m) <= LIMIT <= bound && deviation(m) <= bound && n >= TicksToCalm(bound)
    ensures deviation(m + n) <= LIMIT
    decreases n
  {
    if n > 0 {
      assert Settling(distance, deviation, m);
      CalmPhase(distance, deviation, m + 1, (bound + LIMIT) / 2, n - 1);
    }
  }

  lemma {:induction false} DeviationBounded(distance: nat -> nat, deviation: nat -> nat, n: nat)
    requires forall k: nat :: Settling(distance, deviation, k)
    ensures deviation(n) <= Max(deviation(0), distance(0))
  {
    if n > 0 {
      DeviationBounded(distance, deviation, n - 1);
      DistanceShrinks(distance, deviation, 0, n);
      assert Settling(distance, deviation, n - 1);
    }
  }

  /** The ticks at an unchanged cost after which a link has settled. */
  function TicksToSettle(distance: nat, deviation: nat): nat {
    TicksToClose(distance) + TicksToCalm(Max(LIMIT, Max(deviation, distance)))
  }

  lemma BothPhases(distance: nat -> nat, deviation: nat -> nat, far: nat, wild: nat, n: nat)
    requires forall k: nat :: Settling(distance, deviation, k)
    requires distance(0) <= far && deviation(0) <= wild && n >= TicksToSettle(far, wild)
    ensures deviation(n) <= LIMIT
  {
    var m := TicksToClose(far);
    ClosePhase(distance, deviation, 0, far, m);
    DeviationBounded(distance, deviation, m);
    CalmPhase(distance, deviation, m, Max(LIMIT, Max(wild, far)), n - m);
  }

  /** After that many ticks at an unchanged cost, whatever it is, the stability filter accepts the
      link for good. */
  lemma SettlesForGood(l: Link, distance: nat, deviation: nat, n: nat)
    requires Distance(l) <= distance && l.deviation <= deviation && n >= TicksToSettle(distance, deviation)
    ensures Averages(l, n).deviation <= LIMIT
  {
    var dist := (k: nat) => Distance(Averages(l, k));
    var dev := (k: nat) => Averages(l, k).deviation;
    forall k: nat ensures Settling(dist, dev, k) {
      StepTowards(Averages(l, k));
    }
    BothPhases(dist, dev, distance, deviation, n);
  }

  lemma {:induction false} CalmBound(deviation: nat, k: nat)
    requires deviation < LIMIT + Doubled(1, k)
    ensures TicksToCalm(deviation) <= k
    decreases k
  {
    if deviation > LIMIT {
      DoubledNext(1, k - 1);
      CalmBound((deviation + LIMIT) / 2, k - 1);
    }
  }

  /** `x` doubled `k` times. */
  function Doubled(x: nat, k: nat): nat
    decreases k
  {
    if k == 0 then x else Doubled(x + x, k - 1)
  }

  lemma {:induction false} DoubledNext(x: nat, k: nat)
    decreases k
    ensures Doubled(x, k + 1) == 2 * Doubled(x, k)
  {
    if k > 0 {
      DoubledNext(x + x, k - 1);
    }
  }

  predicate InRange(l: Link) {
    l.cost <= LINK_COST_BROKEN && l.estimated <= LINK_COST_BROKEN && l.deviation <= LINK_COST_BROKEN
  }

  lemma AveragedInRange(l: Link)
    requires InRange(l)
    ensures InRange(Averaged(l))
  {
  }

  lemma AdoptedInRange(l: Link)
    requires InRange(l)
    ensures InRange(Averaged(l)) && InRange(Averaged(Adopted(l)))
  {
    CostRange(l.measured);
    AveragedInRange(l);
    AveragedInRange(Adopted(l));
  }

  /** Every reachable link is in that range. */
  lemma {:induction false} RangeKept(events: seq<LinkEvent>)
    ensures InRange(AfterLinkEvents(events))
  {
    if events != [] {
      var before, e := events[..|events| - 1], events[|events| - 1];
      RangeKept(before);
      var l := AfterLinkEvents(before);
      AdoptedInRange(l);
      AdoptedInRange(FirstPass(l));
    }
  }

  /** From any state a link can be in, 88 ticks are enough. */
  lemma SettlesWithin88(l: Link, n: nat)
    requires InRange(l) && n >= 88
    ensures Averages(l, n).deviation <= LIMIT
  {
    assert TicksToClose(4194304) == 66;
    assert Doubled(1, 22) == Doubled(4, 20) == Doubled(16, 18) == Doubled(64, 16) == Doubled(256, 14) == Doubled(1024, 12);
    assert Doubled(1024, 12) == Doubled(4096, 10) == Doubled(16384, 8) == Doubled(65536, 6) == Doubled(262144, 4) == Doubled(1048576, 2) == Doubled(4194304, 0);
    CalmBound(4194304, 22);
    SettlesForGood(l, LINK_COST_BROKEN, LINK_COST_BROKEN, n);
  }
}

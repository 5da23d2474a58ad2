/** How the default handler chooses an IPv4 gateway among the announced ones. */
module GatewayChoice {
  import opened Basics
  import opened GatewayList

  /** An announced gateway: its path cost and what it offers. */
  datatype Candidate = Candidate(cost: PathCost, ipv4: bool, ipv4nat: bool)

  /** `isGwSelectable` for IPv4 on an IPv4 network. */
  predicate Selectable(g: Candidate, allowNat: bool) {
    g.ipv4 && (allowNat || !g.ipv4nat)
  }

  /** Division as in C. */
  function Truncated(x: int, d: int): int
    requires d > 0
  {
    if x >= 0 then x / d else -(-x / d)
  }

  /** `gw_default_calc_threshold`, in 64-bit arithmetic that wraps around. */
  function Threshold(cost: PathCost, percent: nat): int {
    if percent == 0 then cost else Truncated(Wrap64(Wrap64(cost * percent) + 50), 100)
  }

  /** A gateway that may replace the current one, whose cost is `current`. */
  predicate Eligible(g: Candidate, allowNat: bool, percent: nat, current: Option<PathCost>) {
    && Selectable(g, allowNat) && g.cost != INFINITE
    && (percent != 0 && current.Some? ==> g.cost < Threshold(current.value, percent))
  }

  /** `choice` is the first of the cheapest eligible gateways, if there is one. */
  predicate IsChoice(gws: seq<Candidate>, allowNat: bool, percent: nat, current: Option<PathCost>, choice: Option<nat>) {
    match choice
    case None => forall i :: 0 <= i < |gws| ==> !Eligible(gws[i], allowNat, percent, current)
    case Some(k) =>
      && k < |gws| && Eligible(gws[k], allowNat, percent, current)
      && (forall i :: 0 <= i < |gws| && Eligible(gws[i], allowNat, percent, current) ==> gws[k].cost <= gws[i].cost)
      && (forall i :: 0 <= i < k && Eligible(gws[i], allowNat, percent, current) ==> gws[k].cost < gws[i].cost)
  }

  /** `gw_default_choose_gateway` */
  method ChooseGateway(gws: seq<Candidate>, allowNat: bool, percent: nat, current: Option<PathCost>)
    returns (choice: Option<nat>)
    ensures IsChoice(gws, allowNat, percent, current, choice)
  {
    choice := None;
    var threshold: int, valid := INFINITE, false;
    if percent != 0 && current.Some? {
      threshold, valid := Threshold(current.value, percent), true;
    }
    var i := 0;
    while i < |gws|
      invariant i <= |gws| && IsChoice(gws[..i], allowNat, percent, current, choice)
    {
      var g := gws[i];
      if g.cost != INFINITE && Selectable(g, allowNat) {
        var best := if choice.Some? then gws[choice.value].cost else INFINITE;
        if g.cost < best && (!valid || g.cost < threshold) {
          choice := Some(i);
        }
      }
      assert gws[..i + 1] == gws[..i] + [g];
      i := i + 1;
    }
    assert gws[..i] == gws;
  }

  /** A gateway that can be used at all: it offers IPv4, directly or through an address translation that is allowed, and
      there is a path to it. */
  predicate Working(g: Candidate, allowNat: bool) {
    g.ipv4 && (!g.ipv4nat || allowNat) && g.cost < 0x7FFF_FFFF_FFFF_FFFF
  }

  /** Without a current gateway or a threshold the choice is the first of the cheapest working gateways, and there is
      none only if none works. */
  lemma FreeChoice(gws: seq<Candidate>, allowNat: bool, percent: nat, current: Option<PathCost>, choice: Option<nat>)
    requires (percent == 0 || current.None?) && IsChoice(gws, allowNat, percent, current, choice)
    ensures choice.None? <==> forall i :: 0 <= i < |gws| ==> !Working(gws[i], allowNat)
    ensures choice.Some? ==> choice.value < |gws| && Working(gws[choice.value], allowNat)
    ensures choice.Some? ==> forall i :: 0 <= i < |gws| && Working(gws[i], allowNat) ==>
              gws[choice.value].cost <= gws[i].cost && (i < choice.value ==> gws[choice.value].cost < gws[i].cost)
  {
    assert forall i :: 0 <= i < |gws| ==> (Eligible(gws[i], allowNat, percent, current) <==> Working(gws[i], allowNat));
  }

  /** With a threshold it is the first of the cheapest working gateways among those that cost less than the given
      percentage of the current cost, rounded. */
  lemma ChoiceBelowThreshold(gws: seq<Candidate>, allowNat: bool, percent: nat, current: PathCost, choice: Option<nat>, i: nat)
    requires 0 < percent <= 100 && current * percent + 50 <= INFINITE && i < |gws|
    requires IsChoice(gws, allowNat, percent, Some(current), choice)
    ensures choice.Some? ==> choice.value < |gws| && Working(gws[choice.value], allowNat)
    ensures choice.Some? ==> 100 * (gws[choice.value].cost + 1) <= current * percent + 50
    ensures Working(gws[i], allowNat) && 100 * (gws[i].cost + 1) <= current * percent + 50 ==>
              choice.Some? && gws[choice.value].cost <= gws[i].cost && (i < choice.value ==> gws[choice.value].cost < gws[i].cost)
  {
    ThresholdMeaning(current, percent);
    assert Eligible(gws[i], allowNat, percent, Some(current)) <==>
             Working(gws[i], allowNat) && gws[i].cost < Threshold(current, percent);
  }

  /** Without overflow the threshold is the percentage of the cost, rounded, and never above it. */
  lemma ThresholdMeaning(cost: PathCost, percent: nat)
    requires 0 < percent <= 100 && cost * percent + 50 <= INFINITE
    ensures var t := Threshold(cost, percent); t <= cost && 100 * t <= cost * percent + 50 < 100 * (t + 1)
  {
    Scaled(cost, percent, 100);
    Rounded(cost * percent, cost);
  }

  lemma Rounded(x: int, cost: int)
    requires 0 <= x <= cost * 100 && x + 50 <= INFINITE
    ensures var t := Truncated(Wrap64(Wrap64(x) + 50), 100); t <= cost && 100 * t <= x + 50 < 100 * (t + 1)
  {
    WrapOf(x, 0, x);
    WrapOf(x + 50, 0, x + 50);
  }

  /** With a threshold, a switch always goes to a strictly cheaper gateway. */
  lemma SwitchImproves(gws: seq<Candidate>, allowNat: bool, percent: nat, current: PathCost, k: nat)
    requires 0 < percent <= 100 && current * percent + 50 <= INFINITE
    requires IsChoice(gws, allowNat, percent, Some(current), Some(k))
    ensures gws[k].cost < current
  {
    ThresholdMeaning(current, percent);
  }

  /** When the choice stands, no selectable gateway is better by more than the threshold allows. */
  lemma StayingIsJustified(gws: seq<Candidate>, allowNat: bool, percent: nat, current: PathCost, i: nat)
    requires 0 < percent <= 100 && current * percent + 50 <= INFINITE
    requires IsChoice(gws, allowNat, percent, Some(current), None)
    requires i < |gws| && Selectable(gws[i], allowNat) && gws[i].cost != INFINITE
    ensures 100 * gws[i].cost + 50 > current * percent
  {
    ThresholdMeaning(current, percent);
    assert !Eligible(gws[i], allowNat, percent, Some(current));
  }

  /** A second pass never switches again: the choice is stable until some cost changes. */
  lemma ChoiceIsStable(gws: seq<Candidate>, allowNat: bool, percent: nat, current: Option<PathCost>, k: nat, again: Option<nat>)
    requires 0 < percent <= 100
    requires current.Some? ==> current.value * percent + 50 <= INFINITE
    requires IsChoice(gws, allowNat, percent, current, Some(k)) && gws[k].cost * percent + 50 <= INFINITE
    requires IsChoice(gws, allowNat, percent, Some(gws[k].cost), again)
    ensures again == None
  {
    ThresholdMeaning(gws[k].cost, percent);
    assert forall i :: 0 <= i < |gws| && Eligible(gws[i], allowNat, percent, Some(gws[k].cost)) ==>
             Eligible(gws[i], allowNat, percent, current);
  }

  /** When the current gateway is lost altogether, its infinite cost overflows in the threshold: the
      threshold then admits some gateway if and only if the percentage is odd and above 50. */
  lemma LostGatewayThreshold(percent: nat)
    requires 0 < percent <= 100
    ensures Threshold(INFINITE, percent) > 0 <==> percent % 2 == 1 && percent > 50
    ensures percent % 2 == 1 && percent > 50 ==> Threshold(INFINITE, percent) >= INFINITE / 100 - 1
  {
    var half := percent / 2;
    var word := 0x1_0000_0000_0000_0000;
    if percent % 2 == 0 {
      WrapOf(INFINITE * percent, half, 0 - percent as int);
    } else {
      WrapOf(INFINITE * percent, half, word / 2 - percent);
      if percent < 50 {
        WrapOf(word / 2 - percent + 50, 1, 50 - percent - word / 2);
      }
    }
  }

  /** So a pass that should replace a lost gateway finds nothing for any other percentage, whatever is
      announced. */
  lemma LostGatewayKept(gws: seq<Candidate>, allowNat: bool, percent: nat, choice: Option<nat>)
    requires 0 < percent <= 100 && (percent % 2 == 0 || percent <= 50)
    requires IsChoice(gws, allowNat, percent, Some(INFINITE), choice)
    ensures choice == None
  {
    LostGatewayThreshold(percent);
  }

  /** And for the remaining percentages it finds one exactly when one of ordinary cost is there. */
  lemma LostGatewayReplaced(gws: seq<Candidate>, allowNat: bool, percent: nat, choice: Option<nat>, i: nat)
    requires 50 < percent <= 100 && percent % 2 == 1
    requires IsChoice(gws, allowNat, percent, Some(INFINITE), choice)
    requires i < |gws| && Selectable(gws[i], allowNat) && gws[i].cost < INFINITE / 100 - 1
    ensures choice.Some? && gws[choice.value].cost <= gws[i].cost
  {
    LostGatewayThreshold(percent);
    assert Eligible(gws[i], allowNat, percent, Some(INFINITE));
  }

  /** A course of events after which the current gateway is lost, and a pass that keeps it although an
      ordinary one is announced. */
  lemma LostGatewayReached(choice: Option<nat>)
    requires IsChoice([Candidate(10, true, false)], true, 50,
                      Some(Cost(After(1, [Reprice(1, 5), Choose(1, true, true), Reprice(1, INFINITE)]).cost, 1)), choice)
    ensures After(1, [Reprice(1, 5), Choose(1, true, true), Reprice(1, INFINITE)]).current == Gateway(1)
    ensures choice == None
  {
    LostFirst();
    LostGatewayKept([Candidate(10, true, false)], true, 50, choice);
  }

  // ---------------------------------------------------------------- the handler

  /** The state of the default handler on an IPv4 network: whether it is looking for a gateway, and
      whether its timer runs. */
  class Handler {
    var choosing: bool
    var timer: bool

    constructor ()
      ensures choosing && !timer
    {
      choosing, timer := true, false;
    }

    /** `gw_default_choose_gateway`: nothing is chosen unless the handler is looking for a gateway; it
        stops looking when it has found one, and without a threshold the timer stops with it. */
    method Pass(gws: seq<Candidate>, allowNat: bool, percent: nat, current: Option<PathCost>) returns (choice: Option<nat>)
      modifies this
      ensures if old(choosing) then IsChoice(gws, allowNat, percent, current, choice) else choice == None
      ensures choosing == (old(choosing) && choice == None)
      ensures timer == (old(timer) && (percent != 0 || choosing))
    {
      choice := None;
      if choosing {
        choice := ChooseGateway(gws, allowNat, percent, current);
      }
      choosing := choosing && choice == None;
      if percent == 0 && !choosing {
        timer := false;
      }
    }

    /** `gw_default_lookup_gateway` for IPv4. */
    method LookUp(gws: seq<Candidate>, allowNat: bool, percent: nat, current: Option<PathCost>) returns (choice: Option<nat>)
      modifies this
      ensures IsChoice(gws, allowNat, percent, current, choice)
      ensures choosing == (choice == None) && timer == (old(timer) && (percent != 0 || choosing))
    {
      choosing := true;
      choice := Pass(gws, allowNat, percent, current);
    }

    /** `gw_default_choosegw_handler` for IPv4: after a lookup in vain the timer is started, unless this
        node is a gateway itself. */
    method Choose(gws: seq<Candidate>, allowNat: bool, percent: nat, current: Option<PathCost>, isGateway: bool)
      returns (choice: Option<nat>)
      modifies this
      ensures IsChoice(gws, allowNat, percent, current, choice)
      ensures choosing == (choice == None && !isGateway)
      ensures timer == (choice == None || (old(timer) && percent != 0))
    {
      choice := LookUp(gws, allowNat, percent, current);
      if choosing {
        choosing := !isGateway;
        timer := true;
      }
    }
  }
}

/** The set of smart gateways in use: the list ordered by cost, the tunnel interface names, and the
    current gateway. Gateway entries are numbers; `current` points into the list. */
module GatewayList {
  import opened Basics
  import opened SequenceNumbers

  type Gw = nat

  /** Path costs are non-negative 64-bit numbers; the largest one stands for no path. */
  type PathCost = c: int | 0 <= c <= 0x7FFF_FFFF_FFFF_FFFF

  const INFINITE: PathCost := 0x7FFF_FFFF_FFFF_FFFF

  /** A tunnel interface name, free or given to a gateway. */
  datatype Slot = Free | Used(gw: Gw)

  /** `Dangling` is a pointer to a list entry that was released. */
  datatype Current = NoGateway | Gateway(gw: Gw) | Dangling

  datatype State = State(list: seq<Gw>, slots: seq<Slot>, cost: map<Gw, PathCost>, current: Current)

  function Cost(cost: map<Gw, PathCost>, g: Gw): PathCost {
    if g in cost then cost[g] else INFINITE
  }

  // ---------------------------------------------------------------- the steps on values

  /** The first entry that costs at least as much as `g`. */
  function InsertAt(list: seq<Gw>, cost: map<Gw, PathCost>, g: Gw): (p: nat)
    ensures p <= |list|
    ensures forall i :: 0 <= i < p ==> Cost(cost, list[i]) < Cost(cost, g)
    ensures p < |list| ==> Cost(cost, g) <= Cost(cost, list[p])
  {
    if list == [] || Cost(cost, g) <= Cost(cost, list[0]) then 0 else 1 + InsertAt(list[1..], cost, g)
  }

  function Inserted(list: seq<Gw>, cost: map<Gw, PathCost>, g: Gw): seq<Gw> {
    var p := InsertAt(list, cost, g);
    list[..p] + [g] + list[p..]
  }

  /** The first position of `x`, or the length. */
  function IndexOf<T(==)>(s: seq<T>, x: T): (i: nat)
    ensures i <= |s| && (i < |s| ==> s[i] == x) && (i == |s| ==> x !in s) && x !in s[..i]
  {
    if s == [] || s[0] == x then 0 else 1 + IndexOf(s[1..], x)
  }

  /** `slots` with the first `from` replaced by `to`; only several gateways at once use the names. */
  function Renamed(slots: seq<Slot>, from: Slot, to: Slot): (r: seq<Slot>)
    ensures |r| == |slots|
  {
    var i := IndexOf(slots, from);
    if |slots| > 1 && i < |slots| then slots[i := to] else slots
  }

  function Removed(s: State, i: nat): State
    requires i < |s.list|
  {
    s.(list := Without(s.list, i), slots := Renamed(s.slots, Used(s.list[i]), Free),
       current := if s.current == Gateway(s.list[i]) then Dangling else s.current)
  }

  function Evicted(s: State): State {
    if |s.list| >= |s.slots| && s.list != [] then Removed(s, |s.list| - 1) else s
  }

  /** `g` is chosen; `usable` is what its flags and the configuration say, `tunnelUp` whether the
      tunnel could be created. */
  function Chosen(s: State, g: Gw, usable: bool, tunnelUp: bool): State {
    if !usable || s.current == Gateway(g) then s
    else if g in s.list then s.(current := Gateway(g))
    else
      var t := Evicted(s);
      var slots := Renamed(t.slots, Free, Used(g));
      if tunnelUp then t.(slots := slots, list := Inserted(t.list, t.cost, g), current := Gateway(g))
      else t.(slots := Renamed(slots, Used(g), Free))
  }

  /** `g` is gone. */
  function Deleted(s: State, g: Gw): State {
    if g !in s.list then s
    else
      var t := if s.current == Gateway(g) then s.(current := NoGateway) else s;
      Removed(t, IndexOf(s.list, g))
  }

  /** `g` announces that it has no bandwidth. */
  function Withdrawn(s: State, g: Gw): State {
    Deleted(s.(cost := s.cost[g := INFINITE]), g)
  }

  /** A newer announcement of `g`: an infinite cost does not move it in the list. */
  function Repriced(s: State, g: Gw, c: PathCost): State {
    var cost := s.cost[g := c];
    if c == INFINITE || g !in s.list then s.(cost := cost)
    else s.(cost := cost, list := Inserted(Without(s.list, IndexOf(s.list, g)), cost, g))
  }

  /** A 64-bit two's complement number. */
  function Wrap64(x: int): int {
    (x + 0x8000_0000_0000_0000) % 0x1_0000_0000_0000_0000 - 0x8000_0000_0000_0000
  }

  /** The cost from which gateways behind the current one are taken down. */
  function Boundary(c: PathCost, percentage: int): int
    requires 0 < percentage
  {
    if percentage >= 100 then c
    else if c <= INFINITE / 100 then c * 100 / percentage
    else Wrap64(c / percentage * 100 + 99)
  }

  function TakenDown(s: State, boundary: int): State
    decreases |s.list|
  {
    if |s.list| <= 1 then s
    else
      var worst := s.list[|s.list| - 1];
      if s.current == Gateway(worst) || Cost(s.cost, worst) < boundary then s
      else TakenDown(Removed(s, |s.list| - 1), boundary)
  }

  /** Taking down is off for percentage zero and without a current gateway. */
  function Trimmed(s: State, percentage: nat): State {
    if percentage == 0 || !s.current.Gateway? then s
    else TakenDown(s, Boundary(Cost(s.cost, s.current.gw), percentage))
  }

  function Initial(useCount: nat): State {
    State([], seq(useCount, _ => Free), map[], NoGateway)
  }

  // ---------------------------------------------------------------- the operations

  class Gateways {
    var list: seq<Gw>
    const slots: array<Slot>
    var cost: map<Gw, PathCost>
    var current: Current
    var seqnos: map<Gw, Seq16>

    constructor (useCount: nat)
      requires useCount > 0
      ensures fresh(slots) && slots.Length == useCount
      ensures Value() == Initial(useCount) && seqnos == map[]
    {
      list, cost, current, seqnos := [], map[], NoGateway, map[];
      slots := new Slot[useCount](_ => Free);
      new;
      assert slots[..] == Initial(useCount).slots;
    }

    function Value(): State
      reads this, slots
    {
      State(list, slots[..], cost, current)
    }

    /** `find_interfaceName` */
    method FindName(x: Slot) returns (i: nat)
      ensures i == IndexOf(slots[..], x)
    {
      i := 0;
      while i < slots.Length && slots[i] != x
        invariant i <= slots.Length && x !in slots[..i]
      {
        i := i + 1;
      }
      FirstIndex(slots[..], x, i);
    }

    /** `olsr_gw_list_find` */
    method Find(g: Gw) returns (i: nat)
      ensures i == IndexOf(list, g)
    {
      i := 0;
      while i < |list| && list[i] != g
        invariant i <= |list| && g !in list[..i]
      {
        i := i + 1;
      }
      FirstIndex(list, g, i);
    }

    /** `olsr_gw_list_add` */
    method Add(g: Gw)
      modifies this
      ensures list == Inserted(old(list), cost, g) && cost == old(cost) && current == old(current) && seqnos == old(seqnos)
    {
      var i := 0;
      while i < |list| && Cost(cost, list[i]) < Cost(cost, g)
        invariant i <= |list| && forall k :: 0 <= k < i ==> Cost(cost, list[k]) < Cost(cost, g)
      {
        i := i + 1;
      }
      FirstNotCheaper(list, cost, g, i);
      list := list[..i] + [g] + list[i..];
    }

    /** Exchange the first `from` among the interface names, when several gateways are in use. */
    method Rename(from: Slot, to: Slot)
      modifies slots
      ensures slots[..] == Renamed(old(slots[..]), from, to)
    {
      if slots.Length > 1 {
        var i := FindName(from);
        if i < slots.Length {
          slots[i] := to;
        }
      }
    }

    /** `removeGatewayFromList` */
    method Remove(i: nat)
      requires i < |list|
      modifies this, slots
      ensures Value() == Removed(old(Value()), i) && seqnos == old(seqnos)
    {
      Rename(Used(list[i]), Free);
      if current == Gateway(list[i]) {
        current := Dangling;
      }
      list := list[..i] + list[i + 1..];
    }

    /** A full list loses its worst entry. */
    method MakeRoom()
      requires slots.Length > 0
      modifies this, slots
      ensures Value() == Evicted(old(Value()))
    {
      if |list| >= slots.Length {
        Remove(|list| - 1);
      }
    }

    /** `olsr_set_inet_gateway` */
    method Choose(g: Gw, usable: bool, tunnelUp: bool)
      requires current != Dangling && slots.Length > 0
      modifies this, slots
      ensures Value() == Chosen(old(Value()), g, usable, tunnelUp)
    {
      if !usable || current == Gateway(g) {
        return;
      }
      var at := Find(g);
      if at < |list| {
        current := Gateway(g);
        return;
      }
      MakeRoom();
      Rename(Free, Used(g));
      if tunnelUp {
        Add(g);
        current := Gateway(g);
      } else {
        Rename(Used(g), Free);
      }
    }

    /** `olsr_delete_gateway_tree_entry` */
    method Delete(g: Gw)
      requires current != Dangling
      modifies this, slots
      ensures Value() == Deleted(old(Value()), g) && seqnos == old(seqnos)
    {
      var at := Find(g);
      if at < |list| {
        if current == Gateway(g) {
          current := NoGateway;
        }
        Remove(at);
      }
    }

    /** The end of `olsr_update_gateway_entry`: the cost before the update is always infinite. */
    method Reprice(g: Gw, c: PathCost)
      modifies this
      ensures Value() == Repriced(old(Value()), g, c) && seqnos == old(seqnos)
    {
      cost := cost[g := c];
      if c != INFINITE {
        var at := Find(g);
        if at < |list| {
          list := Without(list, at);
          Add(g);
        }
      }
    }

    /** `olsr_update_gateway_entry`: an announcement that is not newer is ignored, one without
        bandwidth deletes the gateway, and any other one sets its cost. */
    method Update(g: Gw, seqno: Seq16, uplink: nat, downlink: nat, c: PathCost)
      requires current != Dangling
      modifies this, slots
      ensures var stale := g in old(seqnos) && SeqnoDiff(seqno, old(seqnos)[g]) <= 0;
        var dead := uplink == 0 || downlink == 0;
        && Value() == (if stale then old(Value()) else if dead then Withdrawn(old(Value()), g) else Repriced(old(Value()), g, c))
        && seqnos == (if stale then old(seqnos) else if dead then old(seqnos) - {g} else old(seqnos)[g := seqno])
    {
      if g in seqnos && SeqnoDiff(seqno, seqnos[g]) <= 0 {
        return;
      }
      if uplink == 0 || downlink == 0 {
        cost := cost[g := INFINITE];
        Delete(g);
        seqnos := seqnos - {g};
        return;
      }
      seqnos := seqnos[g := seqno];
      Reprice(g, c);
    }

    /** `takeDownExpensiveGateways` */
    method TakeDown(percentage: nat)
      requires current != Dangling
      modifies this, slots
      ensures Value() == Trimmed(old(Value()), percentage)
    {
      if percentage == 0 || current == NoGateway || |list| <= 1 {
        return;
      }
      var boundary := Boundary(Cost(cost, current.gw), percentage);
      while |list| > 1
        invariant TakenDown(Value(), boundary) == TakenDown(old(Value()), boundary)
        decreases |list|
      {
        var worst := list[|list| - 1];
        if current == Gateway(worst) || Cost(cost, worst) < boundary {
          return;
        }
        Remove(|list| - 1);
      }
    }
  }

  lemma {:induction false} FirstIndex<T>(s: seq<T>, x: T, i: nat)
    requires i <= |s| && x !in s[..i] && (i < |s| ==> s[i] == x)
    ensures IndexOf(s, x) == i
  {
    if i > 0 {
      assert s[0] == s[..i][0];
      assert s[1..][..i - 1] == s[..i][1..];
      FirstIndex(s[1..], x, i - 1);
    }
  }

  lemma {:induction false} FirstNotCheaper(list: seq<Gw>, cost: map<Gw, PathCost>, g: Gw, i: nat)
    requires i <= |list| && forall k :: 0 <= k < i ==> Cost(cost, list[k]) < Cost(cost, g)
    requires i < |list| ==> Cost(cost, g) <= Cost(cost, list[i])
    ensures InsertAt(list, cost, g) == i
  {
    if i > 0 {
      FirstNotCheaper(list[1..], cost, g, i - 1);
    }
  }

  // ---------------------------------------------------------------- what every step keeps

  /** No gateway has two names. */
  predicate NamesDiffer(slots: seq<Slot>) {
    forall i, j :: 0 <= i < j < |slots| && slots[i].Used? ==> slots[i] != slots[j]
  }

  function UsedCount(slots: seq<Slot>): nat {
    if slots == [] then 0 else UsedCount(slots[..|slots| - 1]) + (if slots[|slots| - 1].Used? then 1 else 0)
  }

  /** The names in use are those of the listed gateways, one each. */
  ghost predicate Named(list: seq<Gw>, slots: seq<Slot>) {
    && NamesDiffer(slots)
    && UsedCount(slots) == |list|
    && forall g :: g in list <==> Used(g) in slots
  }

  ghost predicate Sound(s: State) {
    && 0 < |s.slots| && |s.list| <= |s.slots|
    && NoRepeats(s.list)
    && (if |s.slots| > 1 then Named(s.list, s.slots) else s.slots == [Free])
    && (s.current.Gateway? ==> s.current.gw in s.list)
  }

  predicate Sorted(list: seq<Gw>, cost: map<Gw, PathCost>) {
    forall i, j :: 0 <= i < j < |list| ==> Cost(cost, list[i]) <= Cost(cost, list[j])
  }

  lemma {:induction false} CountAfterUpdate(slots: seq<Slot>, i: nat, x: Slot)
    requires i < |slots| && slots[i].Used? != x.Used?
    ensures UsedCount(slots[i := x]) == UsedCount(slots) + (if x.Used? then 1 else -1)
  {
    var n := |slots| - 1;
    if i < n {
      CountAfterUpdate(slots[..n], i, x);
      assert slots[i := x][..n] == slots[..n][i := x];
    } else {
      assert slots[i := x][..n] == slots[..n];
    }
  }

  lemma {:induction false} CountWhenFull(slots: seq<Slot>)
    requires Free !in slots
    ensures UsedCount(slots) == |slots|
  {
    if slots != [] {
      assert slots[|slots| - 1] in slots;
      CountWhenFull(slots[..|slots| - 1]);
    }
  }

  lemma {:induction false} CountWhenEmpty(slots: seq<Slot>)
    requires forall i :: 0 <= i < |slots| ==> slots[i] == Free
    ensures UsedCount(slots) == 0
  {
    if slots != [] {
      CountWhenEmpty(slots[..|slots| - 1]);
    }
  }

  /** While the list has room there is a free name, so the names derived from addresses are never
      needed. */
  lemma NameAvailable(list: seq<Gw>, slots: seq<Slot>)
    requires Named(list, slots) && |list| < |slots|
    ensures IndexOf(slots, Free) < |slots|
  {
    if Free !in slots {
      CountWhenFull(slots);
    }
  }

  lemma NameGiven(list: seq<Gw>, slots: seq<Slot>, g: Gw, more: seq<Gw>)
    requires Named(list, slots) && |list| < |slots| && g !in list && |slots| > 1
    requires |more| == |list| + 1 && forall x :: x in more <==> x in list || x == g
    ensures Named(more, Renamed(slots, Free, Used(g)))
  {
    NameAvailable(list, slots);
    var i := IndexOf(slots, Free);
    CountAfterUpdate(slots, i, Used(g));
    var after := slots[i := Used(g)];
    assert after[i] == Used(g);
    forall x ensures x in more <==> Used(x) in after {
      MemberAfterUpdate(slots, i, Used(g), Used(x));
    }
  }

  lemma MemberAfterUpdate(slots: seq<Slot>, i: nat, y: Slot, x: Slot)
    requires i < |slots| && NamesDiffer(slots) && x.Used?
    ensures x in slots[i := y] <==> x == y || (x in slots && slots[i] != x)
  {
    var after := slots[i := y];
    assert after[i] == y;
    if x in slots && slots[i] != x {
      var k :| 0 <= k < |slots| && slots[k] == x;
      assert after[k] == x;
    }
  }

  lemma NameReturned(list: seq<Gw>, slots: seq<Slot>, g: Gw, fewer: seq<Gw>)
    requires Named(list, slots) && g in list && |slots| > 1
    requires |fewer| == |list| - 1 && forall x :: x in fewer <==> x in list && x != g
    ensures Named(fewer, Renamed(slots, Used(g), Free))
  {
    var i := IndexOf(slots, Used(g));
    CountAfterUpdate(slots, i, Free);
    forall x ensures x in fewer <==> Used(x) in slots[i := Free] {
      MemberAfterUpdate(slots, i, Free, Used(x));
    }
  }

  /** Giving a name and taking it back restores the names. */
  lemma NameRoundTrip(slots: seq<Slot>, g: Gw)
    requires Used(g) !in slots
    ensures Renamed(Renamed(slots, Free, Used(g)), Used(g), Free) == slots
  {
    var i := IndexOf(slots, Free);
    if |slots| > 1 && i < |slots| {
      var after := slots[i := Used(g)];
      assert forall k :: 0 <= k < i ==> after[k] == slots[k] && slots[k] in slots;
      FirstIndex(after, Used(g), i);
    }
  }

  lemma WithoutMembers(list: seq<Gw>, i: nat)
    requires i < |list| && NoRepeats(list)
    ensures NoRepeats(Without(list, i)) && |Without(list, i)| == |list| - 1
    ensures forall x :: x in Without(list, i) <==> x in list && x != list[i]
  {
    var rest := Without(list, i);
    forall x ensures x in rest <==> x in list && x != list[i] {
      if x in list && x != list[i] {
        var k :| 0 <= k < |list| && list[k] == x;
        assert rest[if k < i then k else k - 1] == x;
      }
    }
  }

  lemma SplicedMembers(list: seq<Gw>, p: nat, g: Gw)
    requires NoRepeats(list) && g !in list && p <= |list|
    ensures var more := list[..p] + [g] + list[p..];
      NoRepeats(more) && forall x :: x in more <==> x in list || x == g
  {
    var more := list[..p] + [g] + list[p..];
    assert forall i :: 0 <= i < |more| ==> more[i] == (if i < p then list[i] else if i == p then g else list[i - 1]);
    forall x ensures x in more <==> x in list || x == g {
      if x in list {
        var k :| 0 <= k < |list| && list[k] == x;
        assert more[if k < p then k else k + 1] == x;
      }
    }
  }

  lemma InsertedMembers(list: seq<Gw>, cost: map<Gw, PathCost>, g: Gw)
    requires NoRepeats(list) && g !in list
    ensures NoRepeats(Inserted(list, cost, g)) && |Inserted(list, cost, g)| == |list| + 1
    ensures forall x :: x in Inserted(list, cost, g) <==> x in list || x == g
  {
    SplicedMembers(list, InsertAt(list, cost, g), g);
  }

  lemma RemovedSound(s: State, i: nat)
    requires Sound(s) && i < |s.list|
    ensures Sound(Removed(s, i))
  {
    WithoutMembers(s.list, i);
    if |s.slots| > 1 {
      NameReturned(s.list, s.slots, s.list[i], Without(s.list, i));
    }
  }

  lemma ChosenSound(s: State, g: Gw, usable: bool, tunnelUp: bool)
    requires Sound(s)
    ensures Sound(Chosen(s, g, usable, tunnelUp))
  {
    if s.list != [] {
      RemovedSound(s, |s.list| - 1);
      WithoutMembers(s.list, |s.list| - 1);
    }
    var t := Evicted(s);
    if g !in s.list {
      InsertedMembers(t.list, t.cost, g);
      if |s.slots| > 1 {
        NameRoundTrip(t.slots, g);
        NameGiven(t.list, t.slots, g, Inserted(t.list, t.cost, g));
      }
    }
  }

  lemma DeletedSound(s: State, g: Gw)
    requires Sound(s)
    ensures Sound(Deleted(s, g)) && g !in Deleted(s, g).list
    ensures s.current != Dangling ==> Deleted(s, g).current != Dangling
  {
    if g in s.list {
      var t := if s.current == Gateway(g) then s.(current := NoGateway) else s;
      RemovedSound(t, IndexOf(s.list, g));
      WithoutMembers(s.list, IndexOf(s.list, g));
    }
  }

  lemma RepricedSound(s: State, g: Gw, c: PathCost)
    requires Sound(s)
    ensures Sound(Repriced(s, g, c))
  {
    if g in s.list && c != INFINITE {
      var i := IndexOf(s.list, g);
      WithoutMembers(s.list, i);
      InsertedMembers(Without(s.list, i), s.cost[g := c], g);
    }
  }

  lemma {:induction false} TakenDownSound(s: State, boundary: int)
    requires Sound(s)
    ensures Sound(TakenDown(s, boundary))
    decreases |s.list|
  {
    if |s.list| > 1 {
      RemovedSound(s, |s.list| - 1);
      TakenDownSound(Removed(s, |s.list| - 1), boundary);
    }
  }

  /** Where taking down stops. */
  predicate CutAt(s: State, boundary: int, k: nat) {
    && k <= |s.list|
    && (forall i :: k <= i < |s.list| ==> Cost(s.cost, s.list[i]) >= boundary && s.current != Gateway(s.list[i]))
    && (k > 1 ==> s.current == Gateway(s.list[k - 1]) || Cost(s.cost, s.list[k - 1]) < boundary)
    && (k == 0 ==> s.list == [])
  }

  lemma CutNext(s: State, t: State, boundary: int, k: nat)
    requires |s.list| > 1 && t.list == s.list[..|s.list| - 1] && t.cost == s.cost && t.current == s.current
    requires Cost(s.cost, s.list[|s.list| - 1]) >= boundary && s.current != Gateway(s.list[|s.list| - 1])
    requires CutAt(t, boundary, k)
    ensures CutAt(s, boundary, k) && t.list[..k] == s.list[..k]
  {
    assert forall i :: 0 <= i < |t.list| ==> t.list[i] == s.list[i];
  }

  /** Taking down cuts off the end of the list and leaves the current gateway alone. */
  lemma {:induction false} TakenDownCuts(s: State, boundary: int) returns (k: nat)
    ensures CutAt(s, boundary, k)
    ensures var t := TakenDown(s, boundary); t.list == s.list[..k] && t.cost == s.cost && t.current == s.current
    decreases |s.list|
  {
    k := |s.list|;
    if k > 1 && s.current != Gateway(s.list[k - 1]) && Cost(s.cost, s.list[k - 1]) >= boundary {
      var t := Removed(s, k - 1);
      assert t.list == s.list[..k - 1];
      k := TakenDownCuts(t, boundary);
      CutNext(s, t, boundary, k);
    }
  }

  /** On a list in order it removes exactly the gateways behind the current one that reach the boundary. */
  lemma TakenDownExactly(s: State, boundary: int, at: nat, i: nat)
    requires Sound(s) && Sorted(s.list, s.cost)
    requires at < |s.list| && s.current == Gateway(s.list[at]) && i < |s.list|
    ensures s.list[i] in TakenDown(s, boundary).list <==> i <= at || Cost(s.cost, s.list[i]) < boundary
  {
    var k := TakenDownCuts(s, boundary);
    var left := s.list[..k];
    if i < k {
      assert left[i] == s.list[i];
    } else {
      assert forall j :: 0 <= j < k ==> left[j] == s.list[j] != s.list[i];
    }
  }

  /** The same for the whole operation; without a percentage or a current gateway it does nothing. */
  lemma TrimmedExactly(s: State, percentage: nat, at: nat, i: nat)
    requires Sound(s) && Sorted(s.list, s.cost)
    requires at < |s.list| && s.current == Gateway(s.list[at]) && i < |s.list|
    ensures percentage > 0 ==>
              (s.list[i] in Trimmed(s, percentage).list <==>
                 i <= at || Cost(s.cost, s.list[i]) < Boundary(Cost(s.cost, s.list[at]), percentage))
    ensures percentage == 0 ==> Trimmed(s, percentage) == s
    ensures Trimmed(s, percentage).current == s.current && Trimmed(s, percentage).cost == s.cost
  {
    if percentage > 0 {
      var boundary := Boundary(Cost(s.cost, s.list[at]), percentage);
      TakenDownExactly(s, boundary, at, i);
      var k := TakenDownCuts(s, boundary);
    }
  }

  /** The boundary is the cost of the current gateway over the percentage, rounded down; scaled
      first when the product could leave 64 bits, and then never below the current cost unless the
      result does not fit. */
  lemma BoundaryMeaning(c: PathCost, percentage: int)
    requires 0 < percentage <= 100
    ensures c <= INFINITE / 100 ==>
              percentage * Boundary(c, percentage) <= 100 * c < percentage * (Boundary(c, percentage) + 1)
    ensures c / percentage * 100 + 99 <= INFINITE ==> Boundary(c, percentage) >= c
  {
    if c <= INFINITE / 100 {
      Division(c * 100, percentage);
      if percentage < 100 {
        RatioAtLeast(c * 100, percentage, c);
      }
    } else if percentage < 100 {
      ScaledAtLeast(c, percentage);
    }
  }

  lemma RatioAtLeast(x: int, d: int, c: int)
    requires 0 < d <= 100 && 0 <= c && x == c * 100
    ensures x / d >= c
  {
    var b := x / d;
    Division(x, d);
    Scaled(c, d, 100);
    if b < c {
      Scaled(d, b + 1, c);
    }
  }

  lemma ScaledAtLeast(c: int, d: int)
    requires 0 < d < 100 && 0 <= c
    ensures 0 <= c / d * 100 + 99 && c / d * 100 + 99 >= c
  {
    Division(c, d);
    var q := c / d;
    assert q * d <= q * 100 by { Scaled(q, d, 100); }
    assert d * (q + 1) == q * d + d;
  }

  lemma Scaled(n: int, a: int, b: int)
    requires n >= 0 && a <= b
    ensures n * a <= n * b
  {
  }

  lemma WrapOf(x: int, words: int, rest: int)
    requires x == words * 0x1_0000_0000_0000_0000 + rest
    requires -0x8000_0000_0000_0000 <= rest < 0x8000_0000_0000_0000
    ensures Wrap64(x) == rest
  {
  }

  // ---------------------------------------------------------------- who is current, and who is listed

  /** The full list would lose `h` to a new gateway. */
  predicate WorstOfFull(s: State, h: Gw) {
    s.list != [] && |s.list| == |s.slots| && s.list[|s.list| - 1] == h
  }

  /** The current gateway after a choice: the one chosen, if it is usable and listed already or its tunnel comes
      up; otherwise the same as before, unless that was evicted in vain. */
  lemma ChosenCurrent(s: State, g: Gw, usable: bool, tunnelUp: bool)
    requires Sound(s) && s.current != Dangling
    ensures var t := Chosen(s, g, usable, tunnelUp);
      && (usable && (tunnelUp || g in s.list) ==> t.current == Gateway(g) && g in t.list)
      && (!usable ==> t == s)
      && (usable && !tunnelUp && g !in s.list ==>
            g !in t.list && t.current == if s.current.Gateway? && WorstOfFull(s, s.current.gw) then Dangling else s.current)
  {
    ChosenListed(s, g, usable, tunnelUp, g);
  }

  /** The list after a choice: nobody else comes, and nobody goes but the worst of a full list, and that one only
      for a usable gateway not listed before. */
  lemma ChosenListed(s: State, g: Gw, usable: bool, tunnelUp: bool, h: Gw)
    requires Sound(s)
    ensures var t := Chosen(s, g, usable, tunnelUp);
      && t.cost == s.cost && |t.slots| == |s.slots|
      && (h == g ==> (h in t.list <==> h in s.list || (usable && tunnelUp)))
      && (h != g ==> (h in t.list <==> h in s.list && !(usable && g !in s.list && WorstOfFull(s, h))))
  {
    if usable && g !in s.list {
      EvictedListed(s);
      var t := Evicted(s);
      InsertedMembers(t.list, s.cost, g);
      assert Chosen(s, g, usable, tunnelUp).list == if tunnelUp then Inserted(t.list, s.cost, g) else t.list;
    }
  }

  lemma EvictedListed(s: State)
    requires Sound(s)
    ensures var t := Evicted(s); NoRepeats(t.list) && forall h :: h in t.list <==> h in s.list && !WorstOfFull(s, h)
  {
    if s.list != [] {
      WithoutMembers(s.list, |s.list| - 1);
    }
  }

  /** A deleted gateway is gone and not current; nobody else is affected. */
  lemma DeletedListed(s: State, g: Gw, h: Gw)
    requires Sound(s)
    ensures var t := Deleted(s, g);
      && t.cost == s.cost && t.current == (if s.current == Gateway(g) then NoGateway else s.current)
      && (h in t.list <==> h in s.list && h != g)
  {
    if g in s.list {
      WithoutMembers(s.list, IndexOf(s.list, g));
    }
  }

  /** A withdrawn gateway is gone, not current and infinitely expensive; nobody else is affected. */
  lemma WithdrawnListed(s: State, g: Gw, h: Gw)
    requires Sound(s)
    ensures var t := Withdrawn(s, g);
      && Cost(t.cost, g) == 0x7FFF_FFFF_FFFF_FFFF && (h != g ==> Cost(t.cost, h) == Cost(s.cost, h))
      && t.current == (if s.current == Gateway(g) then NoGateway else s.current)
      && (h in t.list <==> h in s.list && h != g)
  {
    DeletedListed(s.(cost := s.cost[g := INFINITE]), g, h);
  }

  /** A new cost changes nobody's place in the list but that of `g`, and neither who is listed nor who is current. */
  lemma RepricedListed(s: State, g: Gw, c: PathCost, h: Gw)
    requires Sound(s)
    ensures var t := Repriced(s, g, c);
      && t.slots == s.slots && t.current == s.current && Cost(t.cost, g) == c && (h != g ==> Cost(t.cost, h) == Cost(s.cost, h))
      && (h in t.list <==> h in s.list) && (g !in s.list ==> t.list == s.list) && (g in s.list ==> MovedOnly(s.list, t.list, g))
  {
    if g in s.list {
      MovedMembers(s.list, s.cost[g := c], g);
    }
  }

  /** The two lists are the same without `g`. */
  predicate MovedOnly(list: seq<Gw>, r: seq<Gw>, g: Gw) {
    g in list && g in r && Without(r, IndexOf(r, g)) == Without(list, IndexOf(list, g))
  }

  lemma MovedMembers(list: seq<Gw>, cost: map<Gw, PathCost>, g: Gw)
    requires NoRepeats(list) && g in list
    ensures var r := Inserted(Without(list, IndexOf(list, g)), cost, g); MovedOnly(list, r, g) && forall h :: h in r <==> h in list
    ensures MovedOnly(list, list, g)
  {
    var rest := Without(list, IndexOf(list, g));
    WithoutMembers(list, IndexOf(list, g));
    InsertedMembers(rest, cost, g);
    InsertedApart(rest, cost, g);
  }

  lemma InsertedApart(list: seq<Gw>, cost: map<Gw, PathCost>, g: Gw)
    requires g !in list
    ensures var r := Inserted(list, cost, g); IndexOf(r, g) < |r| && Without(r, IndexOf(r, g)) == list
  {
    var r, p := Inserted(list, cost, g), InsertAt(list, cost, g);
    assert r[p] == g && forall i :: 0 <= i < p ==> r[i] == list[i];
    var k := IndexOf(r, g);
    assert k == p by {
      assert g in r[..p + 1] && g !in r[..p];
    }
  }

  // ---------------------------------------------------------------- a lost current gateway

  /** The percentages for which the boundary of an infinite cost comes out small or negative. */
  predicate BoundaryDrops(p: int)
    requires 0 < p
  {
    p < 100 && p != 4 && (100 / p % 2 == 1 || 100 % p == 0)
  }

  /** Hundred times the quotient, split at the sign bit of the word. */
  lemma LostProduct(p: int, k: int, m: int, q: int, r: int)
    requires 100 == k * p + m && INFINITE == p * q + r
    ensures 100 * q + 99 == k * 0x8000_0000_0000_0000 + (m * q + 99 - k * (1 + r))
  {
    assert (k * p + m) * q == k * (p * q) + m * q;
    assert k * (p * q) == k * INFINITE - k * r;
  }

  lemma OddQuotient(p: int, k: int)
    requires 0 < p < 100 && k * p == 100 && k % 2 == 1
    ensures p == 4 || p == 20
  {
    assert k > 0;
    if k > 10 {
      if p >= 10 {
        Scaled(k, 10, p);
      }
      assert p == 1 || p == 2 || p == 3 || p == 4 || p == 5 || p == 6 || p == 7 || p == 8 || p == 9;
    } else {
      assert k == 1 || k == 3 || k == 5 || k == 7 || k == 9;
    }
  }

  lemma LostRemainder(p: int, k: int, m: int, q: int, r: int)
    requires 0 < p < 100 && 0 <= m < p && 0 <= r < p && 100 == k * p + m && INFINITE == p * q + r
    ensures 1 <= k <= k * (1 + r) <= 100 && (k * (1 + r) == 100 ==> m == 0)
    ensures q > INFINITE / 100 + 1 && (m == 0 ==> m * q == 0) && (m > 0 ==> q <= m * q <= INFINITE - q)
  {
    if k <= 0 {
      Scaled(p, k, 0);
    }
    Scaled(k, 1, 1 + r);
    Scaled(k, 1 + r, p);
    if q <= INFINITE / 100 + 1 {
      Scaled(p, q, INFINITE / 100 + 1);
      Scaled(INFINITE / 100 + 1, p, 99);
    }
    Scaled(q, m, p - 1);
    if m > 0 {
      Scaled(q, 1, m);
    }
    assert q * (p - 1) == p * q - q;
  }

  /** The boundary for a current gateway whose cost became infinite: for 72 of the 99 percentages below
      100 it drops under every ordinary cost, for the rest it stays above them, and only for 4 does it
      stay infinite. */
  lemma LostBoundary(p: int)
    requires 0 < p < 100
    ensures BoundaryDrops(p) ==> Boundary(INFINITE, p) < 100
    ensures !BoundaryDrops(p) ==> Boundary(INFINITE, p) > INFINITE / 100
    ensures Boundary(INFINITE, p) == INFINITE <==> p == 4
  {
    var k, m, q, r := 100 / p, 100 % p, INFINITE / p, INFINITE % p;
    var delta := m * q + 99 - k * (1 + r);
    LostProduct(p, k, m, q, r);
    LostRemainder(p, k, m, q, r);
    LostWrap(k, delta);
    LostSign(p, k, m, q, r, delta);
    LostDecide(p, k, m, delta, Wrap64(100 * q + 99));
  }

  /** The difference is negative for an odd quotient only at 4 percent. */
  lemma LostSign(p: int, k: int, m: int, q: int, r: int, delta: int)
    requires 0 < p < 100 && k == 100 / p && m == 100 % p && q == INFINITE / p && r == INFINITE % p
    requires delta == m * q + 99 - k * (1 + r) && (delta < 0 ==> m == 0)
    ensures k % 2 == 1 && delta < 0 <==> p == 4
  {
    if k % 2 == 1 && delta < 0 {
      OddQuotient(p, k);
    }
  }

  lemma LostDecide(p: int, k: int, m: int, delta: int, b: int)
    requires k % 2 == 1 && delta < 0 <==> p == 4
    requires if m == 0 then delta < 100 else INFINITE / 100 < delta < INFINITE
    requires b == if k % 2 == 0 then delta else if delta >= 0 then delta - 0x8000_0000_0000_0000 else INFINITE
    ensures p != 4 && (k % 2 == 1 || m == 0) ==> b < 100
    ensures !(p != 4 && (k % 2 == 1 || m == 0)) ==> b > INFINITE / 100
    ensures b == INFINITE <==> p == 4
  {
  }

  lemma LostWrap(k: int, delta: int)
    requires -1 <= delta < 0x8000_0000_0000_0000
    ensures Wrap64(k * 0x8000_0000_0000_0000 + delta) ==
            if k % 2 == 0 then delta else if delta >= 0 then delta - 0x8000_0000_0000_0000 else INFINITE
  {
    var half := 0x8000_0000_0000_0000;
    if k % 2 == 0 {
      WrapOf(k * half + delta, k / 2, delta);
    } else if delta >= 0 {
      WrapOf(k * half + delta, k / 2 + 1, delta - half);
    } else {
      WrapOf(k * half + delta, k / 2, half + delta);
    }
  }

  /** Some cheaper gateway can be taken down behind a lost current one exactly if the percentage is below
      100 and not 4. */
  lemma LostTakesDownSome(p: int)
    requires 0 < p
    ensures (exists c: PathCost :: CheaperTaken(p, c)) <==> p < 100 && p != 4
  {
    if p < 100 {
      LostBoundary(p);
      var b := Boundary(INFINITE, p);
      var c: PathCost := if b < 0 then 0 else b;
      assert b < INFINITE ==> CheaperTaken(p, c);
    }
  }

  /** A gateway of finite cost `c` reaches the boundary of a lost one. */
  predicate CheaperTaken(p: int, c: PathCost)
    requires 0 < p
  {
    Boundary(INFINITE, p) <= c < INFINITE
  }

  predicate Ordinary(c: PathCost) {
    100 <= c <= INFINITE / 100
  }

  /** With gateways of ordinary cost behind a lost current one, either all of them are taken down or
      none, and which is decided by the percentage alone. */
  lemma LostTakesDownExactly(s: State, p: nat, at: nat)
    requires p > 0 && at < |s.list| && s.current == Gateway(s.list[at]) && NoRepeats(s.list)
    requires Cost(s.cost, s.list[at]) == INFINITE
    requires forall i :: at < i < |s.list| ==> Ordinary(Cost(s.cost, s.list[i]))
    ensures Trimmed(s, p).list == if BoundaryDrops(p) then s.list[..at + 1] else s.list
  {
    var boundary := Boundary(INFINITE, p);
    if p < 100 {
      LostBoundary(p);
    }
    var k := TakenDownCuts(s, boundary);
    assert forall i :: at < i < |s.list| ==> s.list[i] != s.list[at];
  }

  /** At the default percentage of 25 a lost gateway takes down a working one of cost 5000. */
  lemma LostGatewayTakesDownWorking()
    ensures var s := After(2, [Reprice(1, 10), Reprice(2, 5000), Choose(2, true, true), Choose(1, true, true), Reprice(1, INFINITE)]);
      s.list == [1, 2] && s.current == Gateway(1) && !Sorted(s.list, s.cost) && Trimmed(s, 25).list == [1]
  {
    var s := LostBefore();
    assert Cost(s.cost, s.list[0]) == INFINITE && Cost(s.cost, s.list[1]) == 5000;
    LostTakesDownExactly(s, 25, 0);
    assert s.list[..1] == [1];
  }

  // ---------------------------------------------------------------- every run

  datatype Event =
    | Choose(gw: Gw, usable: bool, tunnelUp: bool)
    | Delete(gw: Gw) | Withdraw(gw: Gw)
    | Reprice(gw: Gw, newCost: PathCost)
    | TakeDown(percentage: nat)

  /** One event; nothing is said once `current` dangles. */
  function Next(s: State, e: Event): State {
    if s.current == Dangling then s
    else
      match e
      case Choose(g, usable, tunnelUp) => Chosen(s, g, usable, tunnelUp)
      case Delete(g) => Deleted(s, g)
      case Withdraw(g) => Withdrawn(s, g)
      case Reprice(g, c) => Repriced(s, g, c)
      case TakeDown(percentage) => Trimmed(s, percentage)
  }

  function After(useCount: nat, events: seq<Event>): State {
    if events == [] then Initial(useCount)
    else Next(After(useCount, events[..|events| - 1]), events[|events| - 1])
  }

  lemma NextSound(s: State, e: Event)
    requires Sound(s)
    ensures Sound(Next(s, e))
  {
    match e
    case Choose(g, usable, tunnelUp) => ChosenSound(s, g, usable, tunnelUp);
    case Delete(g) => DeletedSound(s, g);
    case Withdraw(g) => DeletedSound(s.(cost := s.cost[g := INFINITE]), g);
    case Reprice(g, c) => RepricedSound(s, g, c);
    case TakeDown(percentage) =>
      if percentage != 0 && s.current.Gateway? {
        TakenDownSound(s, Boundary(Cost(s.cost, s.current.gw), percentage));
      }
  }

  /** In every run the list stays within its size without repeats, its gateways and the used names
      correspond one to one, and `current` is unset, in the list, or dangling. */
  lemma {:induction false} AlwaysSound(useCount: nat, events: seq<Event>)
    requires useCount > 0
    ensures Sound(After(useCount, events))
  {
    if events == [] {
      CountWhenEmpty(Initial(useCount).slots);
    } else {
      AlwaysSound(useCount, events[..|events| - 1]);
      NextSound(After(useCount, events[..|events| - 1]), events[|events| - 1]);
    }
  }

  /** `current` is left dangling exactly when the full list evicts the current gateway to make room
      for one whose tunnel then cannot be created. */
  lemma DanglesExactly(s: State, e: Event)
    requires Sound(s) && s.current != Dangling
    ensures Next(s, e).current == Dangling <==>
            && e.Choose? && e.usable && !e.tunnelUp && e.gw !in s.list
            && |s.list| == |s.slots| && s.current == Gateway(s.list[|s.list| - 1])
  {
    match e
    case Choose(_, _, _) =>
    case Delete(g) => DeletedSound(s, g);
    case Withdraw(g) => DeletedSound(s.(cost := s.cost[g := INFINITE]), g);
    case Reprice(_, _) =>
    case TakeDown(percentage) =>
      if percentage != 0 && s.current.Gateway? {
        var _ := TakenDownCuts(s, Boundary(Cost(s.cost, s.current.gw), percentage));
      }
  }

  // ---------------------------------------------------------------- the order of the list

  lemma WithoutSorted(list: seq<Gw>, cost: map<Gw, PathCost>, i: nat)
    requires Sorted(list, cost) && i < |list|
    ensures Sorted(Without(list, i), cost)
  {
  }

  lemma InsertedSorted(list: seq<Gw>, cost: map<Gw, PathCost>, g: Gw)
    requires Sorted(list, cost)
    ensures Sorted(Inserted(list, cost, g), cost)
  {
    var p, more := InsertAt(list, cost, g), Inserted(list, cost, g);
    forall i, j | 0 <= i < j < |more| ensures Cost(cost, more[i]) <= Cost(cost, more[j]) {
      if j < p {
        assert more[i] == list[i] && more[j] == list[j];
      } else if j == p {
        assert more[i] == list[i] && more[j] == g;
      } else if i < p {
        assert more[i] == list[i] && more[j] == list[j - 1];
      } else if i == p {
        assert more[i] == g && more[j] == list[j - 1] && Cost(cost, g) <= Cost(cost, list[p]);
      } else {
        assert more[i] == list[i - 1] && more[j] == list[j - 1];
      }
    }
  }

  /** The price of a gateway that is not listed does not matter. */
  lemma OthersSorted(list: seq<Gw>, cost: map<Gw, PathCost>, g: Gw, c: PathCost)
    requires Sorted(list, cost) && g !in list
    ensures Sorted(list, cost[g := c])
  {
    assert forall i :: 0 <= i < |list| ==> list[i] in list && Cost(cost[g := c], list[i]) == Cost(cost, list[i]);
  }

  lemma RestSorted(list: seq<Gw>, cost: map<Gw, PathCost>, g: Gw, c: PathCost)
    requires NoRepeats(list) && Sorted(list, cost) && g in list
    ensures Sorted(Without(list, IndexOf(list, g)), cost[g := c])
  {
    var i := IndexOf(list, g);
    WithoutSorted(list, cost, i);
    WithoutMembers(list, i);
    OthersSorted(Without(list, i), cost, g, c);
  }

  lemma RepricedSorted(s: State, g: Gw, c: PathCost)
    requires NoRepeats(s.list) && Sorted(s.list, s.cost) && (c == INFINITE ==> g !in s.list)
    ensures Sorted(Repriced(s, g, c).list, Repriced(s, g, c).cost)
  {
    if g in s.list {
      RestSorted(s.list, s.cost, g, c);
      InsertedSorted(Without(s.list, IndexOf(s.list, g)), s.cost[g := c], g);
    } else {
      OthersSorted(s.list, s.cost, g, c);
    }
  }

  lemma WithdrawnSorted(s: State, g: Gw)
    requires NoRepeats(s.list) && Sorted(s.list, s.cost)
    ensures Sorted(Withdrawn(s, g).list, Withdrawn(s, g).cost)
  {
    if g in s.list {
      RestSorted(s.list, s.cost, g, INFINITE);
    } else {
      OthersSorted(s.list, s.cost, g, INFINITE);
    }
  }

  /** A listed gateway whose cost becomes infinite is not moved: the list stays in order exactly
      when everything behind it is as expensive. */
  lemma InfiniteCostBreaksOrder(s: State, at: nat)
    requires NoRepeats(s.list) && Sorted(s.list, s.cost) && at < |s.list|
    ensures var t := Repriced(s, s.list[at], INFINITE);
      Sorted(t.list, t.cost) <==> forall j :: at < j < |s.list| ==> Cost(s.cost, s.list[j]) == INFINITE
  {
    var t := Repriced(s, s.list[at], INFINITE);
    assert forall j :: 0 <= j < |s.list| ==> Cost(t.cost, t.list[j]) == (if j == at then INFINITE else Cost(s.cost, s.list[j]));
  }

  /** No listed gateway becomes infinitely expensive in this event. */
  predicate Orderly(s: State, e: Event) {
    e.Reprice? && e.newCost == INFINITE ==> e.gw !in s.list
  }

  lemma ChosenSorted(s: State, g: Gw, usable: bool, tunnelUp: bool)
    requires Sound(s) && Sorted(s.list, s.cost)
    ensures var r := Chosen(s, g, usable, tunnelUp); Sorted(r.list, r.cost)
  {
    if s.list != [] {
      WithoutSorted(s.list, s.cost, |s.list| - 1);
    }
    InsertedSorted(Evicted(s).list, s.cost, g);
  }

  lemma DeletedSorted(s: State, g: Gw)
    requires Sound(s) && Sorted(s.list, s.cost)
    ensures var r := Deleted(s, g); Sorted(r.list, r.cost)
  {
    if g in s.list {
      WithoutSorted(s.list, s.cost, IndexOf(s.list, g));
    }
  }

  lemma NextSorted(s: State, e: Event)
    requires Sound(s) && Sorted(s.list, s.cost) && Orderly(s, e)
    ensures Sorted(Next(s, e).list, Next(s, e).cost)
  {
    match e
    case Choose(g, usable, tunnelUp) => ChosenSorted(s, g, usable, tunnelUp);
    case Delete(g) => DeletedSorted(s, g);
    case Withdraw(g) => WithdrawnSorted(s, g);
    case Reprice(g, c) => RepricedSorted(s, g, c);
    case TakeDown(percentage) =>
      if percentage != 0 && s.current.Gateway? {
        var _ := TakenDownCuts(s, Boundary(Cost(s.cost, s.current.gw), percentage));
      }
  }

  /** In every run without such an event the list is ordered by cost at the end. */
  lemma {:induction false} AlwaysSorted(useCount: nat, events: seq<Event>)
    requires useCount > 0
    requires forall n {:trigger events[..n]} :: 0 <= n < |events| ==> Orderly(After(useCount, events[..n]), events[n])
    ensures Sorted(After(useCount, events).list, After(useCount, events).cost)
  {
    if events != [] {
      var before := events[..|events| - 1];
      forall n | 0 <= n < |before| ensures Orderly(After(useCount, before[..n]), before[n]) {
        assert before[..n] == events[..n];
      }
      AlwaysSorted(useCount, before);
      AlwaysSound(useCount, before);
      NextSorted(After(useCount, before), events[|events| - 1]);
    }
  }

  // ---------------------------------------------------------------- runs in which it goes wrong

  lemma AfterNext(useCount: nat, events: seq<Event>, e: Event)
    ensures After(useCount, events + [e]) == Next(After(useCount, events), e)
  {
    assert (events + [e])[..|events|] == events;
  }

  /** The current gateway is evicted from a full list for one whose tunnel fails. */
  lemma DanglingReached()
    ensures After(1, [Choose(1, true, true), Choose(2, true, false)]).current == Dangling
  {
    var a, b := Choose(1, true, true), Choose(2, true, false);
    AfterNext(1, [], a);
    AfterNext(1, [a], b);
    assert [] + [a] == [a] && [a] + [b] == [a, b];
    AlwaysSound(1, [a]);
    OneChosen(a);
    DanglesAfter(Next(Initial(1), a), b);
  }

  lemma OneChosen(e: Event)
    requires e == Choose(1, true, true)
    ensures var s := Next(Initial(1), e); s.list == [1] && |s.slots| == 1 && s.current == Gateway(1)
  {
    var s := Initial(1);
    assert Evicted(s) == s && Inserted([], s.cost, 1) == [1];
  }

  lemma DanglesAfter(s: State, e: Event)
    requires Sound(s) && s.list == [1] && |s.slots| == 1 && s.current == Gateway(1) && e == Choose(2, true, false)
    ensures Next(s, e).current == Dangling
  {
    DanglesExactly(s, e);
  }

  lemma LostFirst()
    ensures var s := After(1, [Reprice(1, 5), Choose(1, true, true), Reprice(1, INFINITE)]);
      s.current == Gateway(1) && Cost(s.cost, 1) == INFINITE
  {
    var a, b, c := Reprice(1, 5), Choose(1, true, true), Reprice(1, INFINITE);
    AfterNext(1, [], a);
    AfterNext(1, [a], b);
    AfterNext(1, [a, b], c);
    assert [] + [a] == [a] && [a] + [b] == [a, b] && [a, b] + [c] == [a, b, c];
    var s := Next(Next(Initial(1), a), b);
    assert s.list == [1] && s.current == Gateway(1);
  }

  lemma LostBefore() returns (s: State)
    ensures s == After(2, [Reprice(1, 10), Reprice(2, 5000), Choose(2, true, true), Choose(1, true, true), Reprice(1, INFINITE)])
    ensures s.list == [1, 2] && s.current == Gateway(1) && s.cost == map[1 := INFINITE, 2 := 5000]
  {
    var a, b, c := Reprice(1, 10), Reprice(2, 5000), Choose(2, true, true);
    var d, e := Choose(1, true, true), Reprice(1, INFINITE);
    AfterNext(2, [], a);
    AfterNext(2, [a], b);
    AfterNext(2, [a, b], c);
    AfterNext(2, [a, b, c], d);
    AfterNext(2, [a, b, c, d], e);
    assert [] + [a] == [a] && [a] + [b] == [a, b] && [a, b] + [c] == [a, b, c];
    assert [a, b, c] + [d] == [a, b, c, d] && [a, b, c, d] + [e] == [a, b, c, d, e];
    assert Next(Next(Initial(2), a), b) == Initial(2).(cost := map[1 := 10, 2 := 5000]);
    var t := FirstOfTwo();
    s := SecondOfTwo(t);
  }

  lemma FirstOfTwo() returns (t: State)
    ensures t == Next(Initial(2).(cost := map[1 := 10, 2 := 5000]), Choose(2, true, true))
    ensures t.list == [2] && |t.slots| == 2 && t.cost == map[1 := 10, 2 := 5000] && t.current == Gateway(2)
  {
    t := Next(Initial(2).(cost := map[1 := 10, 2 := 5000]), Choose(2, true, true));
  }

  lemma SecondOfTwo(t: State) returns (s: State)
    requires t.list == [2] && |t.slots| == 2 && t.cost == map[1 := 10, 2 := 5000] && t.current == Gateway(2)
    ensures s == Next(Next(t, Choose(1, true, true)), Reprice(1, INFINITE))
    ensures s.list == [1, 2] && s.current == Gateway(1) && s.cost == map[1 := INFINITE, 2 := 5000]
  {
    var u := Next(t, Choose(1, true, true));
    assert InsertAt([2], t.cost, 1) == 0;
    assert u.list == [1, 2] && u.current == Gateway(1) && u.cost == t.cost;
    s := Next(u, Reprice(1, INFINITE));
  }
}

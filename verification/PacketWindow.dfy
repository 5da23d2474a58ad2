/** The packet-loss window of the etx_ff link quality: a ring of 32 one-second slots. */
module PacketWindow {
  import opened Basics
  import opened SequenceNumbers
  import opened Sums

  const WINDOW := 32
  const QUICKSTART := 4
  /** What every slot starts with, so that a new link does not look perfect. */
  const PADDING := 3

  // ---------------------------------------------------------------- the ring and the history

  function Min(a: int, b: int): int {
    if a < b then a else b
  }

  /** The period kept in slot `j` during period `n`; negative while the slot is untouched. */
  function Holder(n: nat, j: nat): int {
    if j <= n % WINDOW then n - n % WINDOW + j else n - n % WINDOW + j - WINDOW
  }

  /** One slot, given the counts of all periods so far. */
  function SlotOf(history: seq<nat>, padding: nat, j: nat): nat
    requires history != [] && j < WINDOW
  {
    var k := Holder(|history| - 1, j);
    if k < 0 then padding else history[k] + (if k == 0 then padding else 0)
  }

  function Slots(history: seq<nat>, padding: nat): (r: seq<nat>)
    requires history != []
    ensures |r| == WINDOW && forall j :: 0 <= j < WINDOW ==> r[j] == SlotOf(history, padding, j)
  {
    seq(WINDOW, j requires 0 <= j < WINDOW => SlotOf(history, padding, j))
  }

  /** The last 32 periods. */
  function Recent(history: seq<nat>): seq<nat> {
    if |history| <= WINDOW then history else history[|history| - WINDOW..]
  }

  lemma HolderNext(n: nat, j: nat)
    requires n > 0 && j < WINDOW
    ensures Holder(n, j) == (if j == n % WINDOW then n else Holder(n - 1, j)) && Holder(n - 1, j) < n
  {
  }

  /** A new period takes over the oldest slot. */
  lemma NextSlots(history: seq<nat>, padding: nat, x: nat)
    requires history != []
    ensures Slots(history + [x], padding) == Slots(history, padding)[|history| % WINDOW := x]
  {
    var n := |history|;
    forall j | 0 <= j < WINDOW
      ensures SlotOf(history + [x], padding, j) == (if j == n % WINDOW then x else SlotOf(history, padding, j))
    {
      HolderNext(n, j);
    }
  }

  /** How many paddings are left in all slots together during period `n`. */
  function Paddings(n: nat): nat {
    if n < WINDOW then WINDOW - n else 0
  }

  /** The ring holds the sum of the last 32 periods, and the padding of the slots not used since. */
  lemma {:induction false} RingSum(history: seq<nat>, padding: nat)
    requires history != []
    ensures Sum(Slots(history, padding)) == Sum(Recent(history)) + padding * Paddings(|history| - 1)
  {
    var n := |history| - 1;
    if n == 0 {
      FirstSum(history, padding);
    } else {
      var before := history[..n];
      assert history == before + [history[n]];
      RingSum(before, padding);
      NextSlots(before, padding, history[n]);
      SumAfterUpdate(Slots(before, padding), n % WINDOW, history[n]);
      RecentNext(before, history[n]);
      OldestSlot(before, padding);
      PaddingLeaves(n, padding);
    }
  }

  /** The slot taken over by period `n` held period `n - 32`, or padding only. */
  lemma OldestSlot(history: seq<nat>, padding: nat)
    requires history != []
    ensures var n := |history|;
      SlotOf(history, padding, n % WINDOW)
        == (if n >= WINDOW then history[n - WINDOW] else 0) + (if n <= WINDOW then padding else 0)
  {
    var n := |history|;
    assert Holder(n - 1, n % WINDOW) == n - WINDOW;
  }

  lemma PaddingLeaves(n: nat, padding: nat)
    requires n > 0
    ensures padding * Paddings(n - 1) == padding * Paddings(n) + (if n <= WINDOW then padding else 0)
  {
  }

  lemma FirstSum(history: seq<nat>, padding: nat)
    requires |history| == 1
    ensures Sum(Slots(history, padding)) == Sum(Recent(history)) + padding * Paddings(0)
  {
    var all := Slots(history, padding);
    assert all == [history[0] + padding] + all[1..];
    SumAppend([history[0] + padding], all[1..]);
    SumConstant(all[1..], padding);
    assert [history[0] + padding][..0] == [] && history[..0] == [];
  }

  lemma RecentNext(history: seq<nat>, x: nat)
    ensures var n := |history|;
      Sum(Recent(history + [x])) + (if n >= WINDOW then history[n - WINDOW] else 0) == Sum(Recent(history)) + x
  {
    var n := |history|;
    SumAppend(Recent(history), [x]);
    assert [x][..0] == [];
    if n >= WINDOW {
      var dropped := [history[n - WINDOW]];
      assert Recent(history) + [x] == dropped + Recent(history + [x]);
      SumAppend(dropped, Recent(history + [x]));
      assert dropped[..0] == [];
    } else {
      assert Recent(history) + [x] == Recent(history + [x]);
    }
  }

  /** The number of slots looked at in the tick that ends period `n`. */
  function WindowAt(n: nat): nat {
    Min(QUICKSTART + n + 1, WINDOW)
  }

  /** The sum a tick computes over the first slots is the sum over the last 32 periods, plus the
      padding of the quickstart slots it sees and of the first slot in its first round. */
  lemma WindowSum(history: seq<nat>, padding: nat)
    requires history != []
    ensures var n := |history| - 1;
      Sum(Slots(history, padding)[..WindowAt(n)])
        == Sum(Recent(history)) + padding * (WindowAt(n) - Min(n + 1, WINDOW) + (if n < WINDOW then 1 else 0))
  {
    var n, all := |history| - 1, Slots(history, padding);
    var w := WindowAt(n);
    RingSum(history, padding);
    assert all == all[..w] + all[w..];
    SumAppend(all[..w], all[w..]);
    Untouched(history, padding);
    SumConstant(all[w..], padding);
    Distribute(padding, WINDOW - w, Paddings(n));
  }

  /** The slots beyond the window hold padding only. */
  lemma Untouched(history: seq<nat>, padding: nat)
    requires history != []
    ensures forall j :: WindowAt(|history| - 1) <= j < WINDOW ==> SlotOf(history, padding, j) == padding
  {
    var n := |history| - 1;
    assert WindowAt(n) < WINDOW ==> n % WINDOW == n;
  }

  lemma Distribute(p: nat, a: int, b: int)
    ensures p * b - a * p == p * (b - a)
  {
  }

  // ---------------------------------------------------------------- the measured quality

  const FULL := 65536

  /** The packets credited when hellos are overdue: the longer, the fewer. */
  function Credited(received: nat, missed: nat, helloInterval: nat): nat {
    if missed <= 1 then received else Kept(received, missed * helloInterval % 0x1_0000_0000 / 1000)
  }

  /** What is left when hellos are overdue by this many seconds. */
  function Kept(received: nat, overdue: nat): nat {
    if overdue > WINDOW then 0 else received * (WINDOW - overdue) / WINDOW
  }

  lemma KeptMonotone(r: nat, r': nat, a: nat, b: nat)
    requires r <= r' && b <= a
    ensures Kept(r, a) <= Kept(r', b) && Kept(r, a) <= r
  {
    if a <= WINDOW {
      Products(r, r', WINDOW - a, WINDOW - b);
      Quotients(r * (WINDOW - a), r' * (WINDOW - b), WINDOW, WINDOW);
      Share(r, a);
    }
  }

  /** The quality in 255ths, in ten-bit fixed point, before it is stored in a byte. */
  function Scaled(received: nat, total: nat, multiplier: nat): nat
    requires total > 0
  {
    Products(0, multiplier * 1024 / FULL, 0, received);
    Division(multiplier * 1024 / FULL * received, total);
    multiplier * 1024 / FULL * received / total * 255 / 1024
  }

  function Quality(received: nat, total: nat, multiplier: nat, missed: nat, helloInterval: nat): nat {
    if total == 0 then 0 else Scaled(Credited(received, missed, helloInterval), total, multiplier) % 256
  }

  /** The stored byte loses nothing, and it is 255 only for a link without any loss. */
  lemma ScaledRange(received: nat, total: nat, multiplier: nat)
    requires received <= total && total > 0 && multiplier <= FULL
    ensures Scaled(received, total, multiplier) <= 255
    ensures Scaled(received, total, multiplier) == 255 <==> multiplier == FULL && received == total
  {
    var ratio := multiplier * 1024 / FULL;
    assert ratio <= 1024 && (ratio == 1024 <==> multiplier == FULL);
    FractionRange(ratio, received, total);
  }

  /** The fixed-point quality against the exact one: it never exceeds 255 times the share received, scaled by the
      multiplier in 1024ths, and falls short of it by less than one and a quarter. */
  lemma ScaledError(received: nat, total: nat, multiplier: nat)
    requires total > 0
    ensures var q, ratio := Scaled(received, total, multiplier), multiplier / 64;
      && 1024 * (total * q) <= 255 * (ratio * received) < 1024 * (total * (q + 1)) + 255 * total
  {
    var ratio := multiplier / 64;
    assert multiplier * 1024 / FULL == ratio;
    Products(0, ratio, 0, received);
    Division(ratio * received, total);
    var x := ratio * received / total;
    NestedError(ratio * received, total, x, x * 255 / 1024);
  }

  lemma NestedError(y: nat, total: nat, x: nat, q: nat)
    requires total * x <= y < total * (x + 1) && 1024 * q <= 255 * x < 1024 * (q + 1)
    ensures 1024 * (total * q) <= 255 * y < 1024 * (total * (q + 1)) + 255 * total
  {
    assert total * (1024 * q) <= total * (255 * x) by { Products(total, total, 1024 * q, 255 * x); }
    assert total * (255 * x) <= total * (1024 * (q + 1)) by { Products(total, total, 255 * x, 1024 * (q + 1)); }
    Reorder(total, 1024, q);
    Reorder(total, 255, x);
    Reorder(total, 1024, q + 1);
    assert total * (x + 1) == total * x + total;
  }

  lemma Reorder(a: nat, b: nat, c: nat)
    ensures a * (b * c) == b * (a * c)
  {
  }

  /** More received, less sent and a larger multiplier never measure worse. */
  lemma ScaledMonotone(r: nat, r': nat, t: nat, t': nat, m: nat, m': nat)
    requires r <= r' && 0 < t' <= t && m <= m'
    ensures Scaled(r, t, m) <= Scaled(r', t', m')
  {
    var a, b := m * 1024 / FULL, m' * 1024 / FULL;
    assert a <= b by { Quotients(m * 1024, m' * 1024, FULL, FULL); }
    FractionMonotone(a, b, r, r', t, t');
  }

  lemma FractionMonotone(a: nat, b: nat, r: nat, r': nat, t: nat, t': nat)
    requires a <= b && r <= r' && 0 < t' <= t
    ensures a * r / t * 255 / 1024 <= b * r' / t' * 255 / 1024
  {
    Products(a, b, r, r');
    var x, y := a * r, b * r';
    Quotients(x, y, t', t);
  }

  /** The credit against the exact share: a thirty-second less for each second that hellos are overdue, rounded down,
      and nothing after more than the window. */
  lemma CreditedExactly(received: nat, missed: nat, helloInterval: nat)
    requires missed * helloInterval < 0x1_0000_0000
    ensures var overdue, c := if missed <= 1 then 0 else missed * helloInterval / 1000, Credited(received, missed, helloInterval);
      if overdue > WINDOW then c == 0 else WINDOW * c <= received * (WINDOW - overdue) < WINDOW * c + WINDOW
  {
    var overdue := missed * helloInterval / 1000;
    if missed > 1 && overdue <= WINDOW {
      Products(0, received, 0, WINDOW - overdue);
      Division(received * (WINDOW - overdue), WINDOW);
    }
  }

  /** More received and fewer hellos missed never earn less credit. */
  lemma CreditedMonotone(r: nat, r': nat, missed: nat, missed': nat, helloInterval: nat)
    requires r <= r' && missed' <= missed && missed * helloInterval < 0x1_0000_0000
    ensures Credited(r, missed, helloInterval) <= Credited(r', missed', helloInterval)
  {
    var a, b := missed * helloInterval, missed' * helloInterval;
    assert b <= a by { Products(missed', missed, helloInterval, helloInterval); }
    KeptMonotone(r, r', a % 0x1_0000_0000 / 1000, b % 0x1_0000_0000 / 1000);
  }

  /** Together: a link that got more of fewer packets through and missed fewer hellos never measures worse. */
  lemma QualityMonotone(r: nat, r': nat, t: nat, t': nat, m: nat, missed: nat, missed': nat, helloInterval: nat)
    requires r <= r' <= t' <= t && m <= FULL && missed' <= missed && missed * helloInterval < 0x1_0000_0000
    ensures t' > 0 ==> Quality(r, t, m, missed, helloInterval) <= Quality(r', t', m, missed', helloInterval)
  {
    if t' > 0 {
      QualityRange(r, t, m, missed, helloInterval);
      QualityRange(r', t', m, missed', helloInterval);
      CreditedMonotone(r, r', missed, missed', helloInterval);
      ScaledMonotone(Credited(r, missed, helloInterval), Credited(r', missed', helloInterval), t, t', m, m);
    }
  }

  lemma FractionRange(ratio: nat, received: nat, total: nat)
    requires received <= total && total > 0 && ratio <= 1024
    ensures ratio * received / total <= 1024
    ensures ratio * received / total == 1024 <==> ratio == 1024 && received == total
  {
    var q := ratio * received / total;
    assert total * q <= ratio * received < total * (q + 1) by { Division(ratio * received, total); }
    Products(ratio, 1024, received, total);
    if q > 1024 {
      Products(1025, q, total, total);
    }
    if q == 1024 {
      if ratio < 1024 {
        Products(ratio, 1023, received, total);
      }
    } else if ratio == 1024 && received == total {
      Products(q + 1, 1024, total, total);
    }
  }

  lemma CreditedRange(received: nat, missed: nat, helloInterval: nat)
    ensures Credited(received, missed, helloInterval) <= received
    ensures received > 0 ==>
              (Credited(received, missed, helloInterval) == received <==> missed <= 1 || missed * helloInterval % 0x1_0000_0000 < 1000)
  {
    if missed > 1 {
      var interval := missed * helloInterval % 0x1_0000_0000 / 1000;
      if interval <= WINDOW {
        Share(received, interval);
      }
    }
  }

  lemma Share(received: nat, interval: nat)
    requires interval <= WINDOW
    ensures received * (WINDOW - interval) / WINDOW <= received
    ensures interval == 0 ==> received * (WINDOW - interval) / WINDOW == received
    ensures interval > 0 && received > 0 ==> received * (WINDOW - interval) / WINDOW < received
  {
    Products(received, received, WINDOW - interval, WINDOW);
    if interval > 0 {
      Products(received, received, WINDOW - interval, WINDOW - 1);
    }
  }

  /** `valueLq` fits its byte, and is 255 exactly for full multiplier, every packet received, and no
      hello overdue by a second or more. */
  lemma QualityRange(received: nat, total: nat, multiplier: nat, missed: nat, helloInterval: nat)
    requires received <= total && multiplier <= FULL
    ensures total > 0 ==> Quality(received, total, multiplier, missed, helloInterval)
                          == Scaled(Credited(received, missed, helloInterval), total, multiplier)
    ensures Quality(received, total, multiplier, missed, helloInterval) <= 255
    ensures Quality(received, total, multiplier, missed, helloInterval) == 255 <==>
            && multiplier == FULL && received == total > 0
            && (missed <= 1 || missed * helloInterval % 0x1_0000_0000 < 1000)
  {
    CreditedRange(received, missed, helloInterval);
    if total > 0 {
      ScaledRange(Credited(received, missed, helloInterval), total, multiplier);
    }
  }

  // ---------------------------------------------------------------- the operations

  /** The packets a new sequence number stands for: a jump of more than 256 is taken for a restart. */
  function Gap(last: Seq16, seqno: Seq16): (d: nat)
    requires last != seqno
    ensures 1 <= d <= 256
  {
    var d := (seqno - last) % 65536;
    if d > 256 then 1 else d
  }

  /** Over unbounded packet numbers: the gap is the number of packets since the last one, lost ones included, up to
      256, and a longer jump within the number space counts for one. */
  lemma GapOfLifted(m: int, n: int)
    requires 0 < n - m < 65536
    ensures Wrap(m) != Wrap(n) && Gap(Wrap(m), Wrap(n)) == if n - m <= 256 then n - m else 1
  {
    assert m == MODULUS * (m / MODULUS) + Wrap(m);
    assert n == MODULUS * (n / MODULUS) + Wrap(n);
  }

  function Bump(history: seq<nat>, extra: nat): (r: seq<nat>)
    requires history != []
    ensures |r| == |history|
  {
    history[|history| - 1 := history[|history| - 1] + extra]
  }

  /** The measured packets per second since the link was created, newest last. */
  predicate Plausible(receivedIn: seq<nat>, totalIn: seq<nat>) {
    && |receivedIn| == |totalIn| > 0
    && forall k :: 0 <= k < |receivedIn| ==> receivedIn[k] <= totalIn[k] <= 256 * receivedIn[k]
  }

  /** Fewer than 256 packets in every second, so no 16-bit counter wraps around. */
  predicate Moderate(receivedIn: seq<nat>) {
    forall k :: 0 <= k < |receivedIn| ==> receivedIn[k] < 256
  }

  /** The padding that a tick at the end of period `n` still sees. */
  function PaddingSeen(n: nat): nat {
    PADDING * (WindowAt(n) - Min(n + 1, WINDOW) + (if n < WINDOW then 1 else 0))
  }

  /** What a tick makes of the whole history. */
  function Measured(receivedIn: seq<nat>, totalIn: seq<nat>, multiplier: nat, missed: nat, helloInterval: nat): nat
    requires |receivedIn| == |totalIn| > 0
  {
    Quality(Sum(Recent(receivedIn)), Sum(Recent(totalIn)) + PaddingSeen(|totalIn| - 1), multiplier, missed, helloInterval)
  }

  /** The ring of 16-bit counters after this history. */
  function Ring(history: seq<nat>, padding: nat): (r: seq<nat>)
    requires history != []
    ensures |r| == WINDOW
  {
    var n := |history| - 1;
    if n == 0 then [(history[0] + padding) % 65536] + seq(WINDOW - 1, _ => padding % 65536)
    else Ring(history[..n], padding)[n % WINDOW := history[n] % 65536]
  }

  /** What a tick makes of the counters in its window. */
  function MeasuredRing(receivedIn: seq<nat>, totalIn: seq<nat>, multiplier: nat, missed: nat, helloInterval: nat): nat
    requires |receivedIn| == |totalIn| > 0
  {
    var w := WindowAt(|totalIn| - 1);
    Quality(Sum(Ring(receivedIn, 0)[..w]), Sum(Ring(totalIn, PADDING)[..w]), multiplier, missed, helloInterval)
  }

  lemma RingMeasures(receivedIn: seq<nat>, totalIn: seq<nat>, r: nat, t: nat, multiplier: nat, missed: nat, helloInterval: nat)
    requires |receivedIn| == |totalIn| > 0
    requires var w := WindowAt(|totalIn| - 1); r == Sum(Ring(receivedIn, 0)[..w]) && t == Sum(Ring(totalIn, PADDING)[..w])
    ensures Quality(r, t, multiplier, missed, helloInterval)
         == MeasuredRing(receivedIn, totalIn, multiplier, missed, helloInterval)
  {
  }

  lemma SumsMeasure(receivedIn: seq<nat>, totalIn: seq<nat>, r: nat, t: nat, multiplier: nat, missed: nat, helloInterval: nat)
    requires |receivedIn| == |totalIn| > 0
    requires r == Sum(Recent(receivedIn)) && t == Sum(Recent(totalIn)) + PaddingSeen(|totalIn| - 1)
    ensures Quality(r, t, multiplier, missed, helloInterval)
         == Measured(receivedIn, totalIn, multiplier, missed, helloInterval)
  {
  }

  lemma RingBump(history: seq<nat>, padding: nat, extra: nat)
    requires history != []
    ensures var i := (|history| - 1) % WINDOW;
      Ring(Bump(history, extra), padding) == Ring(history, padding)[i := (Ring(history, padding)[i] + extra) % 65536]
  {
    var n := |history| - 1;
    var bumped := Bump(history, extra);
    assert bumped[..n] == history[..n] && bumped[n] == history[n] + extra;
    if n == 0 {
      ModAdd(history[0] + padding, extra);
    } else {
      ModAdd(history[n], extra);
    }
  }

  lemma ModAdd(x: nat, y: nat)
    ensures (x % 65536 + y) % 65536 == (x + y) % 65536
  {
  }

  lemma RingNext(history: seq<nat>, padding: nat)
    requires history != []
    ensures Ring(history + [0], padding) == Ring(history, padding)[|history| % WINDOW := 0]
  {
    assert (history + [0])[..|history|] == history;
  }

  /** While no counter wraps around, the ring stores the history exactly. */
  lemma {:induction false} RingExact(history: seq<nat>, padding: nat)
    requires history != []
    requires forall k :: 0 <= k < |history| ==> history[k] + padding < 65536
    ensures Ring(history, padding) == Slots(history, padding)
  {
    var n := |history| - 1;
    assert history[0] + padding < 65536;
    if n == 0 {
      FirstRing(history, padding);
    } else {
      RingExact(history[..n], padding);
      NextSlots(history[..n], padding, history[n]);
      assert history == history[..n] + [history[n]];
    }
  }

  lemma FirstRing(history: seq<nat>, padding: nat)
    requires |history| == 1 && history[0] + padding < 65536
    ensures Ring(history, padding) == Slots(history, padding)
  {
    assert forall j :: 0 < j < WINDOW ==> Holder(0, j) < 0;
  }

  /** With moderate traffic the two sums of a tick are those of the history. */
  lemma TickSums(receivedIn: seq<nat>, totalIn: seq<nat>)
    requires Plausible(receivedIn, totalIn) && Moderate(receivedIn)
    ensures var n := |totalIn| - 1;
      && Sum(Ring(receivedIn, 0)[..WindowAt(n)]) == Sum(Recent(receivedIn))
      && Sum(Ring(totalIn, PADDING)[..WindowAt(n)]) == Sum(Recent(totalIn)) + PaddingSeen(n)
  {
    RingExact(receivedIn, 0);
    RingExact(totalIn, PADDING);
    WindowSum(receivedIn, 0);
    WindowSum(totalIn, PADDING);
  }

  lemma PlausibleBump(receivedIn: seq<nat>, totalIn: seq<nat>, extra: nat)
    requires Plausible(receivedIn, totalIn) && 1 <= extra <= 256
    ensures Plausible(Bump(receivedIn, 1), Bump(totalIn, extra))
  {
  }

  lemma PlausibleNext(receivedIn: seq<nat>, totalIn: seq<nat>)
    requires Plausible(receivedIn, totalIn)
    ensures Plausible(receivedIn + [0], totalIn + [0])
  {
  }

  lemma ActiveInside(n: nat)
    ensures n % WINDOW < Min(QUICKSTART + n, WINDOW)
  {
  }

  lemma SlotOrder(receivedIn: seq<nat>, totalIn: seq<nat>, j: nat)
    requires Plausible(receivedIn, totalIn) && j < WINDOW
    ensures SlotOf(receivedIn, 0, j) <= SlotOf(totalIn, PADDING, j)
  {
  }

  /** What a link knows of the traffic over it: the last packet number, the packets received and sent in each second,
      newest last, and the hellos missed since. */
  datatype Traffic = Traffic(last: Seq16, receivedIn: seq<nat>, totalIn: seq<nat>, missed: nat)

  /** A packet arrives. */
  function Arrived(t: Traffic, seqno: Seq16): Traffic
    requires t.receivedIn != [] && t.totalIn != []
  {
    if seqno == t.last then t
    else Traffic(seqno, Bump(t.receivedIn, 1), Bump(t.totalIn, Gap(t.last, seqno)), 0)
  }

  /** A packet with its unbounded number, the end of a second, or a hello that did not come. */
  datatype TrafficEvent = Packet(n: int) | Second | Missed

  function NextTraffic(t: Traffic, e: TrafficEvent): (r: Traffic)
    requires t.receivedIn != [] && t.totalIn != []
    ensures r.receivedIn != [] && r.totalIn != []
  {
    match e
    case Packet(n) => Arrived(t, Wrap(n))
    case Second => t.(receivedIn := t.receivedIn + [0], totalIn := t.totalIn + [0])
    case Missed => t.(missed := (t.missed + 1) % 65536)
  }

  function AfterTraffic(t: Traffic, events: seq<TrafficEvent>): (r: Traffic)
    requires t.receivedIn != [] && t.totalIn != []
    ensures r.receivedIn != [] && r.totalIn != []
  {
    if events == [] then t else NextTraffic(AfterTraffic(t, events[..|events| - 1]), events[|events| - 1])
  }

  /** The number of the last packet of a run, or `first` if there is none. */
  function LastNumber(first: int, events: seq<TrafficEvent>): int {
    if events == [] then first
    else
      var e := events[|events| - 1];
      if e.Packet? then e.n else LastNumber(first, events[..|events| - 1])
  }

  /** How many packets of a run are not just the last one again. */
  function NewPackets(first: int, events: seq<TrafficEvent>): nat {
    if events == [] then 0
    else
      var e, front := events[|events| - 1], events[..|events| - 1];
      NewPackets(first, front) + (if e.Packet? && e.n != LastNumber(first, front) then 1 else 0)
  }

  /** Packets come in order, with at most 255 lost in a row. */
  predicate InOrder(first: int, events: seq<TrafficEvent>) {
    forall i :: 0 <= i < |events| ==> StepInOrder(first, events, i)
  }

  predicate StepInOrder(first: int, events: seq<TrafficEvent>, i: nat)
    requires i < |events|
  {
    events[i].Packet? ==> 0 <= events[i].n - LastNumber(first, events[..i]) <= 256
  }

  /** The books of a whole run balance: over all seconds the packets received are the new ones, and the packets sent
      are all numbers passed since the start. So what is missing between the two is what was lost. */
  lemma {:induction false} TrafficBalances(first: int, t: Traffic, events: seq<TrafficEvent>)
    requires t.receivedIn != [] && t.totalIn != [] && t.last == Wrap(first) && InOrder(first, events)
    ensures var r := AfterTraffic(t, events);
      && r.last == Wrap(LastNumber(first, events))
      && Sum(r.receivedIn) == Sum(t.receivedIn) + NewPackets(first, events)
      && Sum(r.totalIn) == Sum(t.totalIn) + LastNumber(first, events) - first
      && LastNumber(first, events) >= first
  {
    if events != [] {
      var n := |events| - 1;
      var front, e := events[..n], events[n];
      InOrderPrefix(first, events, n);
      TrafficBalances(first, t, front);
      assert StepInOrder(first, events, n);
      BooksNext(AfterTraffic(t, front), LastNumber(first, front), e);
    }
  }

  /** The missed hellos of a run since its last new packet. */
  function MissedSince(start: nat, first: int, events: seq<TrafficEvent>): nat {
    if events == [] then start
    else
      var e, front := events[|events| - 1], events[..|events| - 1];
      if e.Missed? then MissedSince(start, first, front) + 1
      else if e.Packet? && e.n != LastNumber(first, front) then 0
      else MissedSince(start, first, front)
  }

  lemma {:induction false} MissedIsCount(first: int, t: Traffic, events: seq<TrafficEvent>)
    requires t.receivedIn != [] && t.totalIn != [] && t.last == Wrap(first) && t.missed < 65536 && InOrder(first, events)
    ensures AfterTraffic(t, events).missed == MissedSince(t.missed, first, events) % 65536
  {
    if events != [] {
      var n := |events| - 1;
      var front := events[..n];
      InOrderPrefix(first, events, n);
      MissedIsCount(first, t, front);
      TrafficBalances(first, t, front);
      assert StepInOrder(first, events, n);
      MissedNext(AfterTraffic(t, front), LastNumber(first, front), events[n], MissedSince(t.missed, first, front));
    }
  }

  lemma MissedNext(t: Traffic, m: int, e: TrafficEvent, k: nat)
    requires t.receivedIn != [] && t.totalIn != [] && t.last == Wrap(m) && t.missed == k % 65536
    requires e.Packet? ==> 0 <= e.n - m <= 256
    ensures NextTraffic(t, e).missed == (if e.Missed? then k + 1 else if e.Packet? && e.n != m then 0 else k) % 65536
  {
    if e.Packet? && e.n != m {
      GapOfLifted(m, e.n);
    }
    assert (k % 65536 + 1) % 65536 == (k + 1) % 65536;
  }

  lemma InOrderPrefix(first: int, events: seq<TrafficEvent>, n: nat)
    requires InOrder(first, events) && n <= |events|
    ensures InOrder(first, events[..n])
  {
    forall i | 0 <= i < n ensures StepInOrder(first, events[..n], i) {
      assert events[..n][..i] == events[..i] && StepInOrder(first, events, i);
    }
  }

  lemma BooksNext(t: Traffic, m: int, e: TrafficEvent)
    requires t.receivedIn != [] && t.totalIn != [] && t.last == Wrap(m) && (e.Packet? ==> 0 <= e.n - m <= 256)
    ensures var r := NextTraffic(t, e);
      && r.last == (if e.Packet? then Wrap(e.n) else t.last)
      && Sum(r.receivedIn) == Sum(t.receivedIn) + (if e.Packet? && e.n != m then 1 else 0)
      && Sum(r.totalIn) == Sum(t.totalIn) + (if e.Packet? then e.n - m else 0)
  {
    match e
    case Packet(n) =>
      if n != m {
        GapOfLifted(m, n);
        BumpSum(t.receivedIn, 1);
        BumpSum(t.totalIn, n - m);
      }
    case Second =>
      SumAppend(t.receivedIn, [0]);
      SumAppend(t.totalIn, [0]);
    case Missed =>
  }

  lemma BumpSum(history: seq<nat>, extra: nat)
    requires history != []
    ensures Sum(Bump(history, extra)) == Sum(history) + extra
  {
    SumAfterUpdate(history, |history| - 1, history[|history| - 1] + extra);
  }

  class Window {
    const received: array<nat>
    const total: array<nat>
    var windowSize: nat
    var activePtr: nat
    var lastSeqNr: Seq16
    var missedHellos: nat
    var valueLq: nat
    ghost var receivedIn: seq<nat>
    ghost var totalIn: seq<nat>

    ghost predicate Valid()
      reads this, received, total
    {
      && received != total && received.Length == total.Length == WINDOW
      && Plausible(receivedIn, totalIn)
      && activePtr == (|totalIn| - 1) % WINDOW
      && windowSize == Min(QUICKSTART + |totalIn| - 1, WINDOW)
      && received[..] == Ring(receivedIn, 0)
      && total[..] == Ring(totalIn, PADDING)
    }

    ghost function Known(): Traffic
      reads this
    {
      Traffic(lastSeqNr, receivedIn, totalIn, missedHellos)
    }

    /** `default_lq_clear_ff_hello` on zeroed memory. */
    constructor ()
      ensures Valid() && fresh(received) && fresh(total)
      ensures receivedIn == totalIn == [0] && valueLq == missedHellos == lastSeqNr == 0
    {
      received := new nat[WINDOW](_ => 0);
      total := new nat[WINDOW](_ => PADDING);
      windowSize, activePtr, lastSeqNr, missedHellos, valueLq := QUICKSTART, 0, 0, 0, 0;
      receivedIn, totalIn := [0], [0];
    }

    /** Count one received packet out of `diff` in the current second. */
    method Record(diff: nat)
      requires Valid() && 1 <= diff <= 256
      modifies this`receivedIn, this`totalIn, received, total
      ensures Valid() && receivedIn == Bump(old(receivedIn), 1) && totalIn == Bump(old(totalIn), diff)
    {
      ghost var r, t := Bump(receivedIn, 1), Bump(totalIn, diff);
      PlausibleBump(receivedIn, totalIn, diff);
      AddAt(received, activePtr, 1);
      assert received[..] == Ring(r, 0) by { RingBump(receivedIn, 0, 1); }
      AddAt(total, activePtr, diff);
      assert total[..] == Ring(t, PADDING) by { RingBump(totalIn, PADDING, diff); }
      receivedIn, totalIn := r, t;
    }

    /** `default_lq_parser_ff` */
    method Packet(seqno: Seq16)
      requires Valid()
      modifies this, received, total
      ensures Valid()
      ensures valueLq == old(valueLq) && lastSeqNr == seqno
      ensures Known() == Arrived(old(Known()), seqno)
    {
      if lastSeqNr == seqno {
        return;
      }
      var diff: nat;
      if lastSeqNr > seqno {
        diff := seqno + 65536 - lastSeqNr;
      } else {
        diff := seqno - lastSeqNr;
      }
      if diff > 256 {
        diff := 1;
      }
      assert diff == Gap(lastSeqNr, seqno);
      Record(diff);
      lastSeqNr, missedHellos := seqno, 0;
    }

    /** In every state the active slot lies in the window, and without wrap-around no slot has
        received more than were sent. */
    lemma InEveryState()
      requires Valid()
      ensures activePtr < windowSize
      ensures Moderate(receivedIn) ==> forall j :: 0 <= j < WINDOW ==> received[j] <= total[j]
    {
      ActiveInside(|totalIn| - 1);
      if Moderate(receivedIn) {
        RingExact(receivedIn, 0);
        RingExact(totalIn, PADDING);
        forall j | 0 <= j < WINDOW ensures received[..][j] <= total[..][j] {
          SlotOrder(receivedIn, totalIn, j);
        }
      }
    }

    /** `default_lq_packet_loss_worker_ff` */
    method HelloLost()
      requires Valid()
      modifies this`missedHellos
      ensures Valid() && Known() == NextTraffic(old(Known()), Missed)
    {
      missedHellos := (missedHellos + 1) % 65536;
    }

    /** The sums over the window, which grows during quickstart. */
    method Sums() returns (r: nat, t: nat)
      requires Valid()
      modifies this`windowSize
      ensures windowSize == WindowAt(|totalIn| - 1)
      ensures r == Sum(Ring(receivedIn, 0)[..windowSize]) && t == Sum(Ring(totalIn, PADDING)[..windowSize])
      ensures Moderate(receivedIn) ==>
                r == Sum(Recent(receivedIn)) && t == Sum(Recent(totalIn)) + PaddingSeen(|totalIn| - 1)
    {
      if windowSize < WINDOW {
        windowSize := windowSize + 1;
      }
      r := SumUp(received, windowSize);
      t := SumUp(total, windowSize);
      assert received[..windowSize] == received[..][..windowSize] && total[..windowSize] == total[..][..windowSize];
      if Moderate(receivedIn) {
        TickSums(receivedIn, totalIn);
      }
    }

    /** Go on to the next slot. */
    method Shift()
      requires received != total && received.Length == total.Length == WINDOW && Plausible(receivedIn, totalIn)
      requires activePtr == (|totalIn| - 1) % WINDOW && windowSize == WindowAt(|totalIn| - 1)
      requires received[..] == Ring(receivedIn, 0) && total[..] == Ring(totalIn, PADDING)
      modifies this`activePtr, this`receivedIn, this`totalIn, received, total
      ensures Valid() && receivedIn == old(receivedIn) + [0] && totalIn == old(totalIn) + [0]
    {
      RingNext(receivedIn, 0);
      RingNext(totalIn, PADDING);
      NextPosition(|totalIn|);
      activePtr := (activePtr + 1) % WINDOW;
      ClearAt(total, activePtr);
      ClearAt(received, activePtr);
      PlausibleNext(receivedIn, totalIn);
      receivedIn, totalIn := receivedIn + [0], totalIn + [0];
    }

    /** `default_lq_ff_timer` for one link: the quality is that of the counters in the window, whatever
        they have been through, and with moderate traffic that of the whole history. */
    method Tick(multiplier: nat, helloInterval: nat)
      requires Valid()
      modifies this, received, total
      ensures Valid()
      ensures Known() == NextTraffic(old(Known()), Second)
      ensures valueLq == MeasuredRing(old(receivedIn), old(totalIn), multiplier, missedHellos, helloInterval)
      ensures Moderate(old(receivedIn)) ==>
                valueLq == Measured(old(receivedIn), old(totalIn), multiplier, missedHellos, helloInterval)
    {
      var r, t := Sums();
      var quality := Quality(r, t, multiplier, missedHellos, helloInterval);
      RingMeasures(receivedIn, totalIn, r, t, multiplier, missedHellos, helloInterval);
      if Moderate(receivedIn) {
        SumsMeasure(receivedIn, totalIn, r, t, multiplier, missedHellos, helloInterval);
      }
      valueLq := quality;
      Shift();
    }
  }

  /** A 16-bit counter of a ring goes up. */
  method AddAt(ring: array<nat>, i: nat, extra: nat)
    requires i < ring.Length
    modifies ring
    ensures ring[..] == old(ring[..])[i := (old(ring[i]) + extra) % 65536]
  {
    ring[i] := (ring[i] + extra) % 65536;
  }

  method ClearAt(ring: array<nat>, i: nat)
    requires i < ring.Length
    modifies ring
    ensures ring[..] == old(ring[..])[i := 0]
  {
    ring[i] := 0;
  }

  lemma NextPosition(n: nat)
    requires n > 0
    ensures ((n - 1) % WINDOW + 1) % WINDOW == n % WINDOW
    ensures WindowAt(n - 1) == Min(QUICKSTART + n, WINDOW)
  {
  }

  /** The first `n` entries of a ring. */
  method SumUp(ring: array<nat>, n: nat) returns (sum: nat)
    requires n <= ring.Length
    ensures sum == Sum(ring[..n])
  {
    sum := 0;
    for i := 0 to n
      invariant sum == Sum(ring[..i])
    {
      assert ring[..i + 1][..i] == ring[..i];
      sum := sum + ring[i];
    }
  }

  // ---------------------------------------------------------------- what the value says about the link

  /** A link counts as perfect exactly when it has lived through a whole window, every packet of the
      last 32 seconds arrived, at least one did, nothing scales it down, and no hello is overdue. */
  lemma PerfectLink(receivedIn: seq<nat>, totalIn: seq<nat>, multiplier: nat, missed: nat, helloInterval: nat)
    requires Plausible(receivedIn, totalIn) && multiplier <= FULL
    ensures Measured(receivedIn, totalIn, multiplier, missed, helloInterval) <= 255
    ensures Measured(receivedIn, totalIn, multiplier, missed, helloInterval) == 255 <==>
            && |totalIn| > WINDOW && multiplier == FULL
            && Recent(receivedIn) == Recent(totalIn) && Sum(Recent(totalIn)) > 0
            && (missed <= 1 || missed * helloInterval % 0x1_0000_0000 < 1000)
  {
    SumEqual(Recent(receivedIn), Recent(totalIn));
    QualityRange(Sum(Recent(receivedIn)), Sum(Recent(totalIn)) + PaddingSeen(|totalIn| - 1), multiplier, missed, helloInterval);
  }
}

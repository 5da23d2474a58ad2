/** The duplicate set: per originator a 32-bit sliding bitmap over wrapping 16-bit sequence
    numbers, with detection of an originator that restarted with lower numbers. */
module DuplicateSet {
  import opened Bitmap
  import opened SequenceNumbers

  const DUP_MAX_TOO_LOW := 16

  type Address = nat

  datatype Entry = Entry(seqnr: Seq16, tooLow: nat, bitmap: Word)

  /** `olsr_create_duplicate_entry`: the bitmap starts empty, so the creating number itself
      is not recorded. */
  function Created(s: Seq16): Entry {
    Entry(s, 0, 0)
  }

  /** One pass of an existing entry through `olsr_message_is_duplicate`, on values: the new
      entry and whether the message is reported as a duplicate. */
  function Step(e: Entry, s: Seq16): (Entry, bool) {
    var diff := SeqnoDiff(s, e.seqnr);
    if diff < -31 then
      if e.tooLow + 1 > DUP_MAX_TOO_LOW then (Entry(s, 0, 1), false)
      else (e.(tooLow := e.tooLow + 1), true)
    else if diff <= 0 then
      if Bit(e.bitmap, -diff) then (e.(tooLow := 0), true)
      else
        SetBitInWord(e.bitmap, -diff);
        (Entry(e.seqnr, 0, SetBit(e.bitmap, -diff)), false)
    else if diff < 32 then
      SetBitInWord(ShiftLeft(e.bitmap, diff), 0);
      (Entry(s, 0, SetBit(ShiftLeft(e.bitmap, diff), 0)), false)
    else
      (Entry(s, 0, SetBit(0, 0)), false)
  }

  lemma SetBitInWord(w: Word, k: nat)
    requires k < 32
    ensures SetBit(w, k) < WORD
  {
    WordIsPow2();
    SetBitBound(w, k, 32);
  }

  // ---------------------------------------------------------------- the stored entries

  class DupEntry {
    var seqnr: Seq16
    var tooLowCounter: nat
    var bitmap: Word
    var validUntil: nat

    function State(): Entry
      reads this
    {
      Entry(seqnr, tooLowCounter, bitmap)
    }

    constructor (seqnr: Seq16, validUntil: nat)
      ensures State() == Created(seqnr) && this.validUntil == validUntil
    {
      this.seqnr, tooLowCounter, bitmap, this.validUntil := seqnr, 0, 0, validUntil;
    }

    method IsDuplicate(s: Seq16, until: nat) returns (duplicate: bool)
      modifies this
      ensures (State(), duplicate) == Step(old(State()), s)
      ensures validUntil == if until > old(validUntil) then until else old(validUntil)
    {
      if until > validUntil {
        validUntil := until;
      }
      var diff := SeqnoDiff(s, seqnr);
      if diff < -31 {
        tooLowCounter := tooLowCounter + 1;
        if tooLowCounter > DUP_MAX_TOO_LOW {
          tooLowCounter, seqnr, bitmap := 0, s, 1;
          return false;
        }
        return true;
      }
      tooLowCounter := 0;
      if diff <= 0 {
        if Bit(bitmap, -diff) {
          return true;
        }
        SetBitInWord(bitmap, -diff);
        bitmap := SetBit(bitmap, -diff);
        return false;
      } else if diff < 32 {
        bitmap := ShiftLeft(bitmap, diff);
      } else {
        bitmap := 0;
      }
      SetBitInWord(bitmap, 0);
      bitmap := SetBit(bitmap, 0);
      seqnr := s;
      return false;
    }
  }

  /** The tree of entries, keyed by originator. */
  class Table {
    var entries: map<Address, DupEntry>

    ghost predicate Valid()
      reads this
    {
      forall a, b :: a in entries && b in entries && a != b ==> entries[a] != entries[b]
    }

    /** The abstract contents of the table. */
    ghost function Contents(): map<Address, Entry>
      reads this, entries.Values
    {
      map a | a in entries :: entries[a].State()
    }

    constructor ()
      ensures Valid() && Contents() == map[]
    {
      entries := map[];
    }

    /** `olsr_message_is_duplicate`. */
    method IsDuplicate(ip: Address, s: Seq16, until: nat) returns (duplicate: bool)
      requires Valid()
      modifies this, entries.Values
      ensures Valid() && fresh(entries.Values - old(entries.Values))
      ensures Contents() == old(Contents())[ip := if ip in old(Contents())
                                                  then Step(old(Contents())[ip], s).0 else Created(s)]
      ensures duplicate == (ip in old(Contents()) && Step(old(Contents())[ip], s).1)
    {
      if ip !in entries {
        var e := new DupEntry(s, until);
        entries := entries[ip := e];
        return false;
      }
      duplicate := entries[ip].IsDuplicate(s, until);
    }

    /** `olsr_cleanup_duplicates`: an originator known to have gone away is given only two
        more rejections before it may restart. */
    method Forget(ip: Address)
      requires Valid()
      modifies entries.Values
      ensures Valid()
      ensures Contents() == if ip in old(Contents())
                            then old(Contents())[ip := Forgotten(old(Contents())[ip])] else old(Contents())
    {
      if ip in entries {
        entries[ip].tooLowCounter := DUP_MAX_TOO_LOW - 2;
      }
    }
  }

  function Forgotten(e: Entry): Entry {
    e.(tooLow := DUP_MAX_TOO_LOW - 2)
  }

  // ---------------------------------------------------------------- runs over unbounded numbers

  /** What happens to one entry after its creation. A received message is named by the
      unbounded number its originator gave it; only the wrapped number is transmitted. */
  datatype Event = Receive(n: int) | Forget

  /** The entry together with the unbounded number of its window top and the position of the
      event that last re-anchored the window (0 if none did). */
  datatype Track = Track(entry: Entry, top: int, epoch: nat)

  function Advance(t: Track, ev: Event, i: nat): Track {
    match ev
    case Forget => t.(entry := Forgotten(t.entry))
    case Receive(n) =>
      var (e, duplicate) := Step(t.entry, Wrap(n));
      if n < t.top - 31 && !duplicate then Track(e, n, i)
      else Track(e, if n > t.top then n else t.top, t.epoch)
  }

  /** The state after creation by number `first` and then the events of `run`. */
  function After(first: int, run: seq<Event>): Track {
    if run == [] then Track(Created(Wrap(first)), first, 0)
    else Advance(After(first, run[..|run| - 1]), run[|run| - 1], |run| - 1)
  }

  predicate Accepted(first: int, run: seq<Event>, i: nat)
    requires i < |run|
  {
    run[i].Receive? && !Step(After(first, run[..i]).entry, Wrap(run[i].n)).1
  }

  predicate InRangeAt(first: int, run: seq<Event>, i: nat)
    requires i < |run|
  {
    run[i].Receive? ==> -HALF < run[i].n - After(first, run[..i]).top < HALF
  }

  /** Every received number is less than half the number space away from the window top. */
  predicate InRange(first: int, run: seq<Event>) {
    forall i :: 0 <= i < |run| ==> InRangeAt(first, run, i)
  }

  /** Number `n` was accepted by some event of `run` at or after the last re-anchoring. */
  ghost predicate Recorded(first: int, run: seq<Event>, n: int) {
    exists i :: After(first, run).epoch <= i < |run| && run[i] == Receive(n) && Accepted(first, run, i)
  }

  /** The numbers accepted since the last re-anchoring. */
  ghost function History(first: int, run: seq<Event>): iset<int> {
    iset n | Recorded(first, run, n)
  }

  /** The bitmap, read back as unbounded numbers, is exactly the part of `seen` that lies in
      the window. */
  ghost predicate Represents(t: Track, seen: iset<int>) {
    && t.entry.seqnr == Wrap(t.top)
    && t.entry.tooLow <= DUP_MAX_TOO_LOW
    && (forall n :: n in seen ==> n <= t.top)
    && forall x :: t.top - 32 < x <= t.top ==> (Bit(t.entry.bitmap, t.top - x) <==> x in seen)
  }

  /** The simple form of the check, over a plain set of unbounded numbers. */
  ghost function SetStep(t: Track, seen: iset<int>, n: int): (iset<int>, bool) {
    if n < t.top - 31 then
      if t.entry.tooLow == DUP_MAX_TOO_LOW then (iset{n}, false) else (seen, true)
    else if n in seen then (seen, true)
    else (seen + iset{n}, false)
  }

  /** The bitmap after one message: the window keeps what it held and gains the accepted
      number; re-anchoring keeps only the accepted one. */
  lemma StepOnNumbers(e: Entry, top: int, n: int, x: int)
    requires SeqnoDiff(Wrap(n), e.seqnr) == n - top
    requires var top' := Advance(Track(e, top, 0), Receive(n), 0).top; top' - 32 < x <= top'
    ensures var (e', duplicate) := Step(e, Wrap(n));
      var top' := Advance(Track(e, top, 0), Receive(n), 0).top;
      if n < top - 31 && !duplicate then Bit(e'.bitmap, top' - x) <==> x == n
      else Bit(e'.bitmap, top' - x) <==> (!duplicate && x == n) || (x <= top && Bit(e.bitmap, top - x))
  {
    var top' := Advance(Track(e, top, 0), Receive(n), 0).top;
    var k := top' - x;
    if n < top - 31 {
      BitOfZero(k);
    } else if n <= top {
      BitAfterSet(e.bitmap, top - n, k);
    } else if n < top + 32 {
      BitAfterSet(ShiftLeft(e.bitmap, n - top), 0, k);
      BitAfterShift(e.bitmap, n - top, k);
    } else {
      BitAfterSet(0, 0, k);
      BitOfZero(k);
    }
  }

  /** One message: the 32-bit bitmap over wrapped numbers answers as the plain set does, and
      goes on representing it. */
  lemma BitmapRefinesSet(t: Track, seen: iset<int>, n: int, i: nat)
    requires Represents(t, seen)
    requires -HALF < n - t.top < HALF
    ensures Step(t.entry, Wrap(n)).1 == SetStep(t, seen, n).1
    ensures Represents(Advance(t, Receive(n), i), SetStep(t, seen, n).0)
  {
    DiffOfLifted(n, t.top);
    var t', seen' := Advance(t, Receive(n), i), SetStep(t, seen, n).0;
    forall x | t'.top - 32 < x <= t'.top
      ensures Bit(t'.entry.bitmap, t'.top - x) <==> x in seen'
    {
      StepOnNumbers(t.entry, t.top, n, x);
    }
  }

  lemma AcceptedInPrefix(first: int, run: seq<Event>, j: nat, i: nat)
    requires i < j <= |run|
    ensures Accepted(first, run[..j], i) == Accepted(first, run, i)
  {
    assert run[..j][..i] == run[..i];
  }

  lemma InRangeOfPrefix(first: int, run: seq<Event>, j: nat)
    requires InRange(first, run) && j <= |run|
    ensures InRange(first, run[..j])
  {
    forall i | 0 <= i < j
      ensures InRangeAt(first, run[..j], i)
    {
      assert run[..j][..i] == run[..i];
      assert InRangeAt(first, run, i);
    }
  }

  /** What one more event adds to the history: itself if it is accepted, on top of what was
      there before unless it re-anchors the window. */
  lemma HistoryGrows(first: int, run: seq<Event>, m: nat)
    requires |run| == m + 1
    requires After(first, run[..m]).epoch <= m
    ensures var before := After(first, run[..m]);
      var own := if Accepted(first, run, m) then iset{run[m].n} else iset{};
      History(first, run) == if own != iset{} && run[m].n < before.top - 31 then own
                             else own + History(first, run[..m])
  {
    var before, now := After(first, run[..m]), After(first, run);
    forall n
      ensures Recorded(first, run, n) && !(run[m] == Receive(n) && Accepted(first, run, m)) ==>
                now.epoch == before.epoch && Recorded(first, run[..m], n)
      ensures Recorded(first, run[..m], n) && now.epoch == before.epoch ==> Recorded(first, run, n)
    {
      RecordedNext(first, run, m, n);
    }
    if Accepted(first, run, m) {
      assert Recorded(first, run, run[m].n);
    }
  }

  lemma RecordedNext(first: int, run: seq<Event>, m: nat, n: int)
    requires |run| == m + 1 && After(first, run[..m]).epoch <= m
    ensures var before, now := After(first, run[..m]), After(first, run);
      && (Recorded(first, run, n) && !(run[m] == Receive(n) && Accepted(first, run, m)) ==>
            now.epoch == before.epoch && Recorded(first, run[..m], n))
      && (Recorded(first, run[..m], n) && now.epoch == before.epoch ==> Recorded(first, run, n))
  {
    var before, now := After(first, run[..m]), After(first, run);
    if Recorded(first, run, n) && !(run[m] == Receive(n) && Accepted(first, run, m)) {
      var i :| now.epoch <= i < |run| && run[i] == Receive(n) && Accepted(first, run, i);
      AcceptedInPrefix(first, run, m, i);
      assert run[..m][i] == Receive(n);
    }
    if Recorded(first, run[..m], n) && now.epoch == before.epoch {
      var i :| before.epoch <= i < m && run[..m][i] == Receive(n) && Accepted(first, run[..m], i);
      AcceptedInPrefix(first, run, m, i);
      assert run[i] == Receive(n);
    }
  }

  /** Over every run with distances below half the number space, bit `k` of the bitmap is set
      exactly when number `top - k` was accepted since the last re-anchoring. */
  lemma {:induction false} BitmapIsHistory(first: int, run: seq<Event>)
    requires InRange(first, run)
    ensures Represents(After(first, run), History(first, run))
    ensures After(first, run).epoch <= |run|
  {
    if run == [] {
      forall k: nat
        ensures !Bit(0, k)
      {
        BitOfZero(k);
      }
    } else {
      var m := |run| - 1;
      InRangeOfPrefix(first, run, m);
      BitmapIsHistory(first, run[..m]);
      HistoryGrows(first, run, m);
      assert InRangeAt(first, run, m);
      if run[m].Receive? {
        BitmapRefinesSet(After(first, run[..m]), History(first, run[..m]), run[m].n, m);
        assert SetStep(After(first, run[..m]), History(first, run[..m]), run[m].n).0 == History(first, run);
      } else {
        assert History(first, run) == History(first, run[..m]);
      }
    }
  }

  /** The verdict on the next message, read off the history alone. */
  lemma VerdictFromHistory(first: int, run: seq<Event>, j: nat)
    requires InRange(first, run) && j < |run| && run[j].Receive?
    ensures var t := After(first, run[..j]);
      Accepted(first, run, j) <==> if run[j].n < t.top - 31 then t.entry.tooLow == DUP_MAX_TOO_LOW
                                   else !Recorded(first, run[..j], run[j].n)
  {
    InRangeOfPrefix(first, run, j);
    BitmapIsHistory(first, run[..j]);
    assert InRangeAt(first, run, j);
    BitmapRefinesSet(After(first, run[..j]), History(first, run[..j]), run[j].n, j);
  }

  lemma AfterLast(first: int, run: seq<Event>, j: nat)
    requires j < |run|
    ensures After(first, run[..j + 1]) == Advance(After(first, run[..j]), run[j], j)
  {
    assert run[..j + 1][..j] == run[..j];
  }

  /** Until the window is re-anchored, no number is accepted a second time. */
  lemma AcceptedAtMostOnce(first: int, run: seq<Event>, i: nat, j: nat)
    requires InRange(first, run) && i < j < |run|
    requires run[i].Receive? && run[i] == run[j] && Accepted(first, run, i)
    requires After(first, run[..j + 1]).epoch <= i
    ensures !Accepted(first, run, j)
  {
    VerdictFromHistory(first, run, j);
    AfterLast(first, run, j);
    assert Recorded(first, run[..j], run[i].n) || After(first, run[..j]).epoch > i by {
      AcceptedInPrefix(first, run, j, i);
      assert run[..j][i] == run[i];
    }
  }

  /** The number that created the entry is the exception: its first repetition is accepted,
      and by `AcceptedAtMostOnce` no later one is. */
  lemma CreatingNumberAcceptedAgain(first: int)
    ensures InRange(first, [Receive(first)])
    ensures Accepted(first, [Receive(first)], 0)
    ensures After(first, [Receive(first)]).epoch == 0
  {
    assert [Receive(first)][..0] == [];
    DiffOfLifted(first, first);
    BitOfZero(0);
  }

  lemma LowNumber(t: Track, n: int, i: nat)
    requires t.entry.seqnr == Wrap(t.top) && t.entry.tooLow <= DUP_MAX_TOO_LOW
    requires -HALF < n - t.top < -31
    ensures Step(t.entry, Wrap(n)).1 <==> t.entry.tooLow < DUP_MAX_TOO_LOW
    ensures Advance(t, Receive(n), i) ==
            if t.entry.tooLow == DUP_MAX_TOO_LOW then Track(Entry(Wrap(n), 0, 1), n, i)
            else t.(entry := t.entry.(tooLow := t.entry.tooLow + 1))
  {
    DiffOfLifted(n, t.top);
  }

  /** A single too-low number in a run. */
  lemma LowNumberInRun(first: int, whole: seq<Event>, j: nat)
    requires InRange(first, whole) && j < |whole| && whole[j].Receive?
    requires whole[j].n < After(first, whole[..j]).top - 31
    ensures var t := After(first, whole[..j]);
      && t.entry.tooLow <= DUP_MAX_TOO_LOW
      && (Accepted(first, whole, j) <==> t.entry.tooLow == DUP_MAX_TOO_LOW)
      && After(first, whole[..j + 1]) ==
           if t.entry.tooLow == DUP_MAX_TOO_LOW then Track(Entry(Wrap(whole[j].n), 0, 1), whole[j].n, j)
           else t.(entry := t.entry.(tooLow := t.entry.tooLow + 1))
  {
    InRangeOfPrefix(first, whole, j);
    BitmapIsHistory(first, whole[..j]);
    assert InRangeAt(first, whole, j);
    LowNumber(After(first, whole[..j]), whole[j].n, j);
    AfterLast(first, whole, j);
  }

  // ---------------------------------------------------------------- the counter of too-low numbers

  /** Event `i` is a message below the window that ends at `top`. */
  predicate LowAgainst(run: seq<Event>, i: nat, top: int)
    requires i < |run|
  {
    run[i].Receive? && run[i].n < top - 31
  }

  /** How many events at the end of a run are messages below the window. */
  function Streak(run: seq<Event>, top: int): (k: nat)
    ensures k <= |run|
    ensures forall i :: |run| - k <= i < |run| ==> LowAgainst(run, i, top)
    ensures k < |run| ==> !LowAgainst(run, |run| - 1 - k, top)
  {
    if run == [] || !LowAgainst(run, |run| - 1, top) then 0
    else
      var rest := run[..|run| - 1];
      var k := Streak(rest, top);
      assert forall i :: 0 <= i < |rest| ==> LowAgainst(rest, i, top) == LowAgainst(run, i, top);
      1 + k
  }

  /** The rejections in front of the streak: a `Forget` counts for fourteen, anything else for none. */
  function HeadStart(run: seq<Event>, top: int): nat {
    var k := Streak(run, top);
    if k < |run| && run[|run| - 1 - k].Forget? then 14 else 0
  }

  /** Over every run the counter is the number of messages below the window since the last message within
      or above it, re-anchoring or `Forget`, and fourteen more after a `Forget`. */
  lemma {:induction false} CounterIsStreak(first: int, run: seq<Event>)
    requires InRange(first, run)
    ensures var t := After(first, run); t.entry.tooLow == Streak(run, t.top) + HeadStart(run, t.top)
  {
    if run != [] {
      var m := |run| - 1;
      InRangeOfPrefix(first, run, m);
      CounterIsStreak(first, run[..m]);
      BitmapIsHistory(first, run[..m]);
      assert InRangeAt(first, run, m);
      StreakNext(run, m, After(first, run).top);
      if run[m].Receive? {
        CounterStep(After(first, run[..m]), run[m].n, m);
      }
    }
  }

  lemma StreakNext(run: seq<Event>, m: nat, top: int)
    requires |run| == m + 1
    ensures var sum := Streak(run, top) + HeadStart(run, top);
      sum == if run[m].Forget? then 14 else if run[m].n < top - 31 then 1 + Streak(run[..m], top) + HeadStart(run[..m], top) else 0
  {
    assert LowAgainst(run, m, top) ==> Streak(run, top) == 1 + Streak(run[..m], top);
  }

  /** One message: below the window it counts, unless it re-anchors; any other one ends the count. */
  lemma CounterStep(t: Track, n: int, i: nat)
    requires t.entry.seqnr == Wrap(t.top) && t.entry.tooLow <= DUP_MAX_TOO_LOW && -HALF < n - t.top < HALF
    ensures var t' := Advance(t, Receive(n), i);
      if n < t.top - 31 && t.entry.tooLow < 16 then t'.entry.tooLow == t.entry.tooLow + 1 && t'.top == t.top
      else t'.entry.tooLow == 0 && n >= t'.top - 31
  {
    DiffOfLifted(n, t.top);
  }

  predicate LowBefore(run: seq<Event>, j: nat, k: nat, top: int)
    requires j <= |run|
  {
    k <= j && forall i :: j - k <= i < j ==> LowAgainst(run, i, top)
  }

  /** A message below the window is accepted exactly if the sixteen events before it were such messages as
      well, or the two before it were and a `Forget` came right before these. */
  lemma LowAcceptedExactly(first: int, run: seq<Event>, j: nat)
    requires InRange(first, run) && j < |run| && LowAgainst(run, j, After(first, run[..j]).top)
    ensures var top := After(first, run[..j]).top;
      Accepted(first, run, j) <==>
        LowBefore(run, j, 16, top) || (LowBefore(run, j, 2, top) && j >= 3 && run[j - 3].Forget?)
  {
    InRangeOfPrefix(first, run, j);
    CounterIsStreak(first, run[..j]);
    LowNumberInRun(first, run, j);
    CounterFull(run, j, After(first, run[..j]).top);
  }

  /** The ways for the counter to be full. */
  lemma CounterFull(run: seq<Event>, j: nat, top: int)
    requires j <= |run| && Streak(run[..j], top) + HeadStart(run[..j], top) <= 16
    ensures Streak(run[..j], top) + HeadStart(run[..j], top) == 16 <==>
              LowBefore(run, j, 16, top) || (LowBefore(run, j, 2, top) && j >= 3 && run[j - 3].Forget?)
  {
    var front := run[..j];
    var k := Streak(front, top);
    StreakBefore(run, j, 16, top);
    StreakBefore(run, j, 2, top);
    StreakBefore(run, j, 3, top);
    if j >= 3 {
      assert front[j - 3] == run[j - 3];
      assert run[j - 3].Forget? ==> !LowAgainst(run, j - 3, top);
    }
  }

  lemma StreakBefore(run: seq<Event>, j: nat, k: nat, top: int)
    requires j <= |run|
    ensures LowBefore(run, j, k, top) <==> k <= Streak(run[..j], top)
  {
    var front := run[..j];
    assert forall i :: 0 <= i < j ==> LowAgainst(front, i, top) == LowAgainst(run, i, top);
    var s := Streak(front, top);
    if s < k <= j {
      assert !LowAgainst(run, j - 1 - s, top);
    }
  }

  /** A restarted originator is heard again: of consecutive too-low numbers from event `j` on,
      as many are rejected as the counter still allows, and the next one, at `last`,
      re-anchors the window on itself. */
  lemma {:induction false} RestartAfterLowNumbers(first: int, whole: seq<Event>, j: nat, last: nat, t: Track)
    requires InRange(first, whole) && j <= last < |whole| && t == After(first, whole[..j])
    requires last - j == DUP_MAX_TOO_LOW - t.entry.tooLow
    requires forall i :: j <= i <= last ==> LowAgainst(whole, i, t.top)
    ensures forall i :: j <= i < last ==> !Accepted(first, whole, i)
    ensures Accepted(first, whole, last)
    ensures After(first, whole[..last + 1]) == Track(Entry(Wrap(whole[last].n), 0, 1), whole[last].n, last)
    decreases last - j
  {
    assert LowAgainst(whole, j, t.top);
    LowNumberInRun(first, whole, j);
    if j < last {
      var next := t.(entry := t.entry.(tooLow := t.entry.tooLow + 1));
      assert After(first, whole[..j + 1]) == next;
      RestartAfterLowNumbers(first, whole, j + 1, last, next);
    }
  }

  /** Told from the events alone: of a series of messages below the window that begins at event `j`, the first sixteen
      are rejected and the 17th is accepted and re-anchors the window; right after a `Forget` it is the third. */
  lemma RestartExactly(first: int, whole: seq<Event>, j: nat, last: nat)
    requires InRange(first, whole) && j <= last < |whole|
    requires last == j + if j > 0 && whole[j - 1].Forget? then 2 else 16
    requires var top := After(first, whole[..j]).top;
      (j > 0 ==> !LowAgainst(whole, j - 1, top)) && forall i :: j <= i <= last ==> LowAgainst(whole, i, top)
    ensures forall i :: j <= i < last ==> !Accepted(first, whole, i)
    ensures Accepted(first, whole, last)
    ensures After(first, whole[..last + 1]) == Track(Entry(Wrap(whole[last].n), 0, 1), whole[last].n, last)
  {
    var front, t := whole[..j], After(first, whole[..j]);
    InRangeOfPrefix(first, whole, j);
    CounterIsStreak(first, front);
    assert j > 0 ==> front[j - 1] == whole[j - 1] && !LowAgainst(front, j - 1, t.top);
    RestartAfterLowNumbers(first, whole, j, last, t);
  }
}

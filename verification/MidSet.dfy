/** Multiple interface declarations: which main address an interface alias belongs to. The set is
    kept twice, by main address and by alias, each in hash buckets. */
module MidSet {
  import opened Basics

  type Address = nat

  /** An alias in the list of its main address, with the time until which it was declared. */
  datatype Alias = Alias(addr: Address, validUntil: nat)

  datatype Entry = Entry(main: Address, aliases: seq<Alias>)

  /** The same alias in the reverse index. */
  datatype Reverse = Reverse(alias: Address, main: Address)

  /** Who owns which alias: what both indexes stand for. */
  type Owner = map<Address, Address>

  // ---------------------------------------------------------------- the two indexes

  ghost predicate Owned(r: Reverse, owner: Owner) {
    r.alias in owner && owner[r.alias] == r.main
  }

  /** The bucket of the reverse index for hash value `h`: the aliases that hash to it, once each. */
  ghost predicate AliasBucket(bucket: seq<Reverse>, h: nat, owner: Owner, hash: Address -> nat) {
    && (forall i :: 0 <= i < |bucket| ==> hash(bucket[i].alias) == h && Owned(bucket[i], owner))
    && (forall a :: a in owner && hash(a) == h ==> Reverse(a, owner[a]) in bucket)
    && (forall i, j :: 0 <= i < j < |bucket| ==> bucket[i] != bucket[j])
  }

  ghost predicate ByAlias(reverse: seq<seq<Reverse>>, owner: Owner, hash: Address -> nat) {
    forall h :: 0 <= h < |reverse| ==> AliasBucket(reverse[h], h, owner, hash)
  }

  predicate Lists(aliases: seq<Alias>, a: Address) {
    exists k :: 0 <= k < |aliases| && aliases[k].addr == a
  }

  predicate Distinct(aliases: seq<Alias>) {
    forall i, j :: 0 <= i < j < |aliases| ==> aliases[i].addr != aliases[j].addr
  }

  /** An entry lists exactly the aliases that belong to its main address. */
  ghost predicate Complete(e: Entry, owner: Owner) {
    Distinct(e.aliases) && forall a :: Lists(e.aliases, a) <==> Owned(Reverse(a, e.main), owner)
  }

  predicate HasMain(bucket: seq<Entry>, m: Address) {
    exists i :: 0 <= i < |bucket| && bucket[i].main == m
  }

  /** The bucket of the main index for hash value `h`: one entry for each main address. */
  ghost predicate MainBucket(bucket: seq<Entry>, h: nat, owner: Owner, hash: Address -> nat) {
    && (forall i :: 0 <= i < |bucket| ==> hash(bucket[i].main) == h && Complete(bucket[i], owner))
    && (forall a :: a in owner && hash(owner[a]) == h ==> HasMain(bucket, owner[a]))
    && (forall i, j :: 0 <= i < j < |bucket| ==> bucket[i].main != bucket[j].main)
  }

  ghost predicate ByMain(mids: seq<seq<Entry>>, owner: Owner, hash: Address -> nat) {
    forall h :: 0 <= h < |mids| ==> MainBucket(mids[h], h, owner, hash)
  }

  // ---------------------------------------------------------------- changes of the reverse index

  lemma AddToBucket(bucket: seq<Reverse>, owner: Owner, hash: Address -> nat, a: Address, m: Address)
    requires AliasBucket(bucket, hash(a), owner, hash) && a !in owner
    ensures AliasBucket([Reverse(a, m)] + bucket, hash(a), owner[a := m], hash)
  {
    var more := [Reverse(a, m)] + bucket;
    assert forall i :: 0 < i < |more| ==> more[i] == bucket[i - 1];
    forall x | x in owner[a := m] && hash(x) == hash(a) ensures Reverse(x, owner[a := m][x]) in more {
      if x != a {
        assert Reverse(x, owner[x]) in bucket;
      } else {
        assert more[0] == Reverse(a, m);
      }
    }
  }

  lemma DropFromBucket(bucket: seq<Reverse>, owner: Owner, hash: Address -> nat, i: nat)
    requires i < |bucket| && AliasBucket(bucket, hash(bucket[i].alias), owner, hash)
    ensures AliasBucket(Without(bucket, i), hash(bucket[i].alias), owner - {bucket[i].alias}, hash)
  {
    var a := bucket[i].alias;
    var rest := Without(bucket, i);
    assert forall k :: 0 <= k < |rest| ==> rest[k] == bucket[if k < i then k else k + 1];
    assert forall k :: 0 <= k < |rest| ==> rest[k].alias != a;
    forall x | x in owner - {a} && hash(x) == hash(a) ensures Reverse(x, owner[x]) in rest {
      WithoutMember(bucket, i, Reverse(x, owner[x]));
    }
  }

  lemma AddReverse(reverse: seq<seq<Reverse>>, owner: Owner, hash: Address -> nat, a: Address, m: Address)
    requires ByAlias(reverse, owner, hash) && a !in owner && hash(a) < |reverse|
    ensures ByAlias(reverse[hash(a) := [Reverse(a, m)] + reverse[hash(a)]], owner[a := m], hash)
  {
    AddToBucket(reverse[hash(a)], owner, hash, a, m);
    forall h | 0 <= h < |reverse| && h != hash(a) ensures AliasBucket(reverse[h], h, owner[a := m], hash) {
      assert AliasBucket(reverse[h], h, owner, hash);
    }
  }

  lemma DropReverse(reverse: seq<seq<Reverse>>, owner: Owner, hash: Address -> nat, h: nat, i: nat)
    requires ByAlias(reverse, owner, hash) && h < |reverse| && i < |reverse[h]|
    ensures ByAlias(reverse[h := Without(reverse[h], i)], owner - {reverse[h][i].alias}, hash)
  {
    var a := reverse[h][i].alias;
    assert AliasBucket(reverse[h], h, owner, hash);
    DropFromBucket(reverse[h], owner, hash, i);
    forall k | 0 <= k < |reverse| && k != h ensures AliasBucket(reverse[k], k, owner - {a}, hash) {
      assert AliasBucket(reverse[k], k, owner, hash);
    }
  }

  // ---------------------------------------------------------------- changes of the main index

  lemma AddListed(aliases: seq<Alias>, x: Alias, a: Address)
    ensures Lists([x] + aliases, a) <==> x.addr == a || Lists(aliases, a)
  {
    var more := [x] + aliases;
    assert more[0] == x;
    if Lists(aliases, a) {
      var k :| 0 <= k < |aliases| && aliases[k].addr == a;
      assert more[k + 1] == aliases[k];
    }
  }

  lemma DropListed(aliases: seq<Alias>, k: nat, a: Address)
    requires k < |aliases| && Distinct(aliases)
    ensures Lists(Without(aliases, k), a) <==> Lists(aliases, a) && a != aliases[k].addr
  {
    var fewer := Without(aliases, k);
    if Lists(aliases, a) && a != aliases[k].addr {
      var j :| 0 <= j < |aliases| && aliases[j].addr == a;
      assert fewer[if j < k then j else j - 1] == aliases[j];
    }
  }

  lemma CompleteAdd(e: Entry, owner: Owner, x: Alias)
    requires Complete(e, owner) && x.addr !in owner
    ensures Complete(e.(aliases := [x] + e.aliases), owner[x.addr := e.main])
  {
    assert !Lists(e.aliases, x.addr);
    forall a ensures Lists([x] + e.aliases, a) <==> Owned(Reverse(a, e.main), owner[x.addr := e.main]) {
      AddListed(e.aliases, x, a);
    }
  }

  lemma CompleteDrop(e: Entry, owner: Owner, k: nat)
    requires Complete(e, owner) && k < |e.aliases|
    ensures Complete(e.(aliases := Without(e.aliases, k)), owner - {e.aliases[k].addr})
    ensures Owned(Reverse(e.aliases[k].addr, e.main), owner)
  {
    var x := e.aliases[k].addr;
    assert Lists(e.aliases, x);
    forall a ensures Lists(Without(e.aliases, k), a) <==> Owned(Reverse(a, e.main), owner - {x}) {
      DropListed(e.aliases, k, a);
    }
  }

  /** Entries of other main addresses are not concerned. */
  lemma CompleteOther(e: Entry, owner: Owner, a: Address, m: Address)
    requires Complete(e, owner) && e.main != m
    ensures a !in owner ==> Complete(e, owner[a := m])
    ensures a in owner && owner[a] == m ==> Complete(e, owner - {a})
  {
    if a !in owner {
      forall x ensures Lists(e.aliases, x) <==> Owned(Reverse(x, e.main), owner[a := m]) {
      }
    } else if owner[a] == m {
      forall x ensures Lists(e.aliases, x) <==> Owned(Reverse(x, e.main), owner - {a}) {
      }
    }
  }

  /** `owner` and `changed` differ at most in alias `a` of `m`. */
  ghost predicate Changes(owner: Owner, changed: Owner, a: Address, m: Address) {
    || (a !in owner && changed == owner[a := m])
    || (a in owner && owner[a] == m && changed == owner - {a})
    || changed == owner
  }

  lemma OtherBucket(bucket: seq<Entry>, h: nat, owner: Owner, changed: Owner, hash: Address -> nat, a: Address, m: Address)
    requires MainBucket(bucket, h, owner, hash) && Changes(owner, changed, a, m) && hash(m) != h
    ensures MainBucket(bucket, h, changed, hash)
  {
    forall i | 0 <= i < |bucket| ensures Complete(bucket[i], changed) {
      CompleteOther(bucket[i], owner, a, m);
    }
  }

  /** In the bucket of `m`, its entry gets the new list. */
  lemma SameBucket(bucket: seq<Entry>, owner: Owner, changed: Owner, hash: Address -> nat, a: Address, i: nat, e: Entry)
    requires i < |bucket| && e.main == bucket[i].main && Complete(e, changed)
    requires MainBucket(bucket, hash(e.main), owner, hash) && Changes(owner, changed, a, e.main)
    ensures MainBucket(bucket[i := e], hash(e.main), changed, hash)
  {
    var after := bucket[i := e];
    forall k | 0 <= k < |after| ensures hash(after[k].main) == hash(e.main) && Complete(after[k], changed) {
      if k != i {
        CompleteOther(bucket[k], owner, a, e.main);
      }
    }
    assert forall k :: 0 <= k < |after| ==> after[k].main == bucket[k].main;
    forall x | x in changed && hash(changed[x]) == hash(e.main) ensures HasMain(after, changed[x]) {
      if changed[x] == e.main {
        assert after[i].main == e.main;
      } else {
        assert HasMain(bucket, owner[x]);
        var k :| 0 <= k < |bucket| && bucket[k].main == owner[x];
        assert after[k].main == owner[x];
      }
    }
  }

  /** A new entry in front. */
  lemma NewInBucket(bucket: seq<Entry>, owner: Owner, hash: Address -> nat, a: Address, e: Entry)
    requires MainBucket(bucket, hash(e.main), owner, hash) && !HasMain(bucket, e.main)
    requires a !in owner && Complete(e, owner[a := e.main])
    ensures MainBucket([e] + bucket, hash(e.main), owner[a := e.main], hash)
  {
    var after, changed := [e] + bucket, owner[a := e.main];
    assert forall k :: 0 < k < |after| ==> after[k] == bucket[k - 1];
    forall k | 0 <= k < |after| ensures hash(after[k].main) == hash(e.main) && Complete(after[k], changed) {
      if k > 0 {
        assert bucket[k - 1].main != e.main;
        CompleteOther(bucket[k - 1], owner, a, e.main);
      }
    }
    forall x | x in changed && hash(changed[x]) == hash(e.main) ensures HasMain(after, changed[x]) {
      if changed[x] == e.main {
        assert after[0].main == e.main;
      } else {
        assert HasMain(bucket, owner[x]);
        var k :| 0 <= k < |bucket| && bucket[k].main == owner[x];
        assert after[k + 1].main == owner[x];
      }
    }
  }

  lemma Replaced(mids: seq<seq<Entry>>, owner: Owner, changed: Owner, hash: Address -> nat, a: Address, h: nat, i: nat, e: Entry)
    requires ByMain(mids, owner, hash) && h < |mids| && i < |mids[h]|
    requires e.main == mids[h][i].main && Complete(e, changed) && Changes(owner, changed, a, e.main)
    ensures ByMain(mids[h := mids[h][i := e]], changed, hash)
  {
    assert MainBucket(mids[h], h, owner, hash);
    SameBucket(mids[h], owner, changed, hash, a, i, e);
    forall k | 0 <= k < |mids| && k != h ensures MainBucket(mids[k], k, changed, hash) {
      OtherBucket(mids[k], k, owner, changed, hash, a, e.main);
    }
  }

  lemma Created(mids: seq<seq<Entry>>, owner: Owner, hash: Address -> nat, x: Alias, m: Address)
    requires ByMain(mids, owner, hash) && hash(m) < |mids| && !HasMain(mids[hash(m)], m) && x.addr !in owner
    ensures ByMain(mids[hash(m) := [Entry(m, [x])] + mids[hash(m)]], owner[x.addr := m], hash)
  {
    var h, e := hash(m), Entry(m, []);
    var bucket := mids[h];
    assert MainBucket(bucket, h, owner, hash);
    assert Complete(e, owner) by {
      forall a ensures !Owned(Reverse(a, m), owner) {
        assert Owned(Reverse(a, m), owner) ==> HasMain(bucket, m);
      }
    }
    CompleteAdd(e, owner, x);
    assert [x] + e.aliases == [x];
    NewInBucket(mids[h], owner, hash, x.addr, Entry(m, [x]));
    forall k | 0 <= k < |mids| && k != h ensures MainBucket(mids[k], k, owner[x.addr := m], hash) {
      OtherBucket(mids[k], k, owner, owner[x.addr := m], hash, x.addr, m);
    }
  }

  lemma CompleteTouch(e: Entry, owner: Owner, k: nat, until: nat)
    requires Complete(e, owner) && k < |e.aliases|
    ensures Complete(e.(aliases := e.aliases[k := e.aliases[k].(validUntil := until)]), owner)
  {
    var after := e.aliases[k := e.aliases[k].(validUntil := until)];
    assert forall j :: 0 <= j < |after| ==> after[j].addr == e.aliases[j].addr;
    forall a ensures Lists(after, a) <==> Lists(e.aliases, a) {
      if Lists(e.aliases, a) {
        var j :| 0 <= j < |after| && e.aliases[j].addr == a;
        assert after[j].addr == a;
      }
    }
  }

  /** An entry without aliases can go. */
  lemma Removed(mids: seq<seq<Entry>>, owner: Owner, hash: Address -> nat, h: nat, i: nat)
    requires ByMain(mids, owner, hash) && h < |mids| && i < |mids[h]| && mids[h][i].aliases == []
    ensures ByMain(mids[h := Without(mids[h], i)], owner, hash)
  {
    var bucket, m := mids[h], mids[h][i].main;
    assert MainBucket(bucket, h, owner, hash) && Complete(bucket[i], owner);
    var rest := Without(bucket, i);
    assert forall k :: 0 <= k < |rest| ==> rest[k] == bucket[if k < i then k else k + 1];
    forall a | a in owner && hash(owner[a]) == h ensures HasMain(rest, owner[a]) {
      assert Owned(Reverse(a, owner[a]), owner) && !Lists(bucket[i].aliases, a);
      assert HasMain(bucket, owner[a]);
      var k :| 0 <= k < |bucket| && bucket[k].main == owner[a];
      assert rest[if k < i then k else k - 1].main == owner[a];
    }
    assert MainBucket(rest, h, owner, hash);
  }

  // ---------------------------------------------------------------- the operations

  /** `olsr_isTimedOut`, on a 32-bit clock that wraps around. */
  predicate TimedOut(s: nat, now: nat) {
    if s > now then s - now > 0x8000_0000 else now - s <= 0x8000_0000
  }

  /** Against a clock that never wraps around: a time less than half the clock's range away has come exactly if it is
      not in the future. */
  lemma TimedOutIsPast(until: int, now: int)
    requires -0x8000_0000 < until - now < 0x8000_0000
    ensures TimedOut(until % 0x1_0000_0000, now % 0x1_0000_0000) <==> until <= now
  {
    assert until == 0x1_0000_0000 * (until / 0x1_0000_0000) + until % 0x1_0000_0000;
    assert now == 0x1_0000_0000 * (now / 0x1_0000_0000) + now % 0x1_0000_0000;
  }

  /** The aliases that survive a message of `m` declaring `declared`: those it declares, whose time is
      extended, and the others until they time out. When nothing at all is declared, every alias goes. */
  function Pruned(aliases: seq<Alias>, declared: seq<Address>, now: nat, until: nat): seq<Alias> {
    if aliases == [] then []
    else
      var x, rest := aliases[0], Pruned(aliases[1..], declared, now, until);
      if x.addr in declared then [x.(validUntil := until)] + rest
      else if declared != [] && !TimedOut(x.validUntil, now) then [x] + rest
      else rest
  }

  lemma FrontNext(list: seq<Alias>, k: nat, y: Alias, rest: seq<Alias>)
    requires k < |list|
    ensures list[..k] + ([y] + rest) == list[k := y][..k + 1] + rest
  {
    assert list[k := y][..k + 1] == list[..k] + [y];
  }

  lemma PruneNext(list: seq<Alias>, k: nat, before: seq<Alias>, done: nat, declared: seq<Address>, now: nat, until: nat)
    requires k < |list| && done <= |before| && list[k..] == before[done..]
    requires list[..k] + Pruned(before[done..], declared, now, until) == Pruned(before, declared, now, until)
    ensures done < |before| && list[k] == before[done] && list[k + 1..] == before[done + 1..]
    ensures var x, rest := list[k], Pruned(before[done + 1..], declared, now, until);
      Pruned(before, declared, now, until)
      == (if x.addr in declared then list[k := x.(validUntil := until)][..k + 1]
          else if declared != [] && !TimedOut(x.validUntil, now) then list[..k + 1] else list[..k]) + rest
  {
    var x, rest := list[k], Pruned(before[done + 1..], declared, now, until);
    assert before[done..][0] == x && before[done..][1..] == before[done + 1..] && list[k..][1..] == list[k + 1..];
    var y := x.(validUntil := until);
    FrontNext(list, k, x, rest);
    FrontNext(list, k, y, rest);
    assert list[k := x] == list;
  }

  lemma Slices(list: seq<Alias>, k: nat, y: Alias)
    requires k < |list|
    ensures list[k := y][k + 1..] == list[k + 1..]
    ensures Without(list, k)[k..] == list[k + 1..] && Without(list, k)[..k] == list[..k]
  {
  }

  /** The first entry for `m` in its bucket, or the length of the bucket. */
  function EntryAt(bucket: seq<Entry>, m: Address): (i: nat)
    ensures i <= |bucket| && (i < |bucket| ==> bucket[i].main == m) && (i == |bucket| ==> !HasMain(bucket, m))
    ensures forall k :: 0 <= k < i ==> bucket[k].main != m
  {
    if bucket == [] || bucket[0].main == m then 0 else 1 + EntryAt(bucket[1..], m)
  }

  lemma FirstEntry(bucket: seq<Entry>, m: Address, i: nat)
    requires i <= |bucket| && (forall k :: 0 <= k < i ==> bucket[k].main != m) && (i < |bucket| ==> bucket[i].main == m)
    ensures EntryAt(bucket, m) == i
  {
  }

  /** The main index with one more alias of `m`. */
  function Enlisted(mids: seq<seq<Entry>>, h: nat, m: Address, x: Alias): seq<seq<Entry>>
    requires h < |mids|
  {
    var bucket := mids[h];
    var i := EntryAt(bucket, m);
    mids[h := if i < |bucket| then bucket[i := bucket[i].(aliases := [x] + bucket[i].aliases)] else [Entry(m, [x])] + bucket]
  }

  /** The reverse index with one more element in front of bucket `h`. */
  function Queued(reverse: seq<seq<Reverse>>, h: nat, r: Reverse): seq<seq<Reverse>>
    requires h < |reverse|
  {
    reverse[h := [r] + reverse[h]]
  }

  lemma EnlistedFits(mids: seq<seq<Entry>>, owner: Owner, hash: Address -> nat, m: Address, x: Alias)
    requires ByMain(mids, owner, hash) && hash(m) < |mids| && x.addr !in owner
    ensures ByMain(Enlisted(mids, hash(m), m, x), owner[x.addr := m], hash)
  {
    var h := hash(m);
    var bucket := mids[h];
    var i := EntryAt(bucket, m);
    assert MainBucket(bucket, h, owner, hash);
    if i < |bucket| {
      CompleteAdd(bucket[i], owner, x);
      Replaced(mids, owner, owner[x.addr := m], hash, x.addr, h, i, bucket[i].(aliases := [x] + bucket[i].aliases));
    } else {
      Created(mids, owner, hash, x, m);
    }
  }

  /** An alias queued under a second main address leaves a reverse index that stands for no owners at all. */
  lemma ClashBreaks(reverse: seq<seq<Reverse>>, owner: Owner, hash: Address -> nat, a: Address, m: Address)
    requires ByAlias(reverse, owner, hash) && hash(a) < |reverse| && a in owner && owner[a] != m
    ensures forall o: Owner :: !ByAlias(Queued(reverse, hash(a), Reverse(a, m)), o, hash)
  {
    var h := hash(a);
    var bucket := [Reverse(a, m)] + reverse[h];
    assert AliasBucket(reverse[h], h, owner, hash);
    var k :| 0 <= k < |reverse[h]| && reverse[h][k] == Reverse(a, owner[a]);
    assert bucket[0] == Reverse(a, m) && bucket[k + 1] == Reverse(a, owner[a]);
    forall o: Owner ensures !ByAlias(Queued(reverse, h, Reverse(a, m)), o, hash) {
      assert !AliasBucket(bucket, h, o, hash) && Queued(reverse, h, Reverse(a, m))[h] == bucket;
    }
  }

  class Mids {
    const hash: Address -> nat
    var mids: seq<seq<Entry>>
    var reverse: seq<seq<Reverse>>
    ghost var owner: Owner

    ghost predicate Valid()
      reads this
    {
      && |mids| == |reverse| && (forall a :: hash(a) < |mids|)
      && ByMain(mids, owner, hash) && ByAlias(reverse, owner, hash)
    }

    constructor (size: nat, hash: Address -> nat)
      requires forall a :: hash(a) < size
      ensures Valid() && owner == map[] && this.hash == hash
    {
      this.hash := hash;
      mids, reverse, owner := seq(size, _ => []), seq(size, _ => []), map[];
    }

    /** `mid_lookup_main_addr` */
    method LookupMain(a: Address) returns (m: Option<Address>)
      requires Valid()
      ensures m == if a in owner then Some(owner[a]) else None
    {
      var bucket := reverse[hash(a)];
      assert AliasBucket(bucket, hash(a), owner, hash);
      var i := 0;
      while i < |bucket|
        invariant i <= |bucket| && forall k :: 0 <= k < i ==> bucket[k].alias != a
      {
        if bucket[i].alias == a {
          return Some(bucket[i].main);
        }
        i := i + 1;
      }
      return None;
    }

    /** `mid_lookup_entry_bymain`: the position in its bucket, or the length of the bucket. */
    method FindEntry(m: Address) returns (i: nat)
      requires Valid()
      ensures i == EntryAt(mids[hash(m)], m)
    {
      var bucket := mids[hash(m)];
      i := 0;
      while i < |bucket| && bucket[i].main != m
        invariant i <= |bucket| && forall k :: 0 <= k < i ==> bucket[k].main != m
      {
        i := i + 1;
      }
      FirstEntry(bucket, m, i);
    }

    /** `mid_lookup_aliases`: exactly the aliases that `LookupMain` maps to `m`. */
    method LookupAliases(m: Address) returns (aliases: seq<Alias>)
      requires Valid()
      ensures Distinct(aliases) && forall a :: Lists(aliases, a) <==> a in owner && owner[a] == m
    {
      var i := FindEntry(m);
      assert MainBucket(mids[hash(m)], hash(m), owner, hash);
      if i < |mids[hash(m)]| {
        aliases := mids[hash(m)][i].aliases;
        assert Complete(mids[hash(m)][i], owner);
        assert forall a :: Lists(aliases, a) <==> Owned(Reverse(a, m), owner);
      } else {
        aliases := [];
      }
    }

    /** `insert_mid_tuple`: an alias already registered with `m` changes nothing, any other one enters
        both indexes. They go on agreeing exactly if the alias did not belong to somebody else. */
    method Insert(m: Address, x: Alias) returns (inserted: bool)
      requires Valid()
      modifies this
      ensures inserted == !Owned(Reverse(x.addr, m), old(owner))
      ensures mids == (if inserted then Enlisted(old(mids), hash(m), m, x) else old(mids))
      ensures reverse == (if inserted then Queued(old(reverse), hash(x.addr), Reverse(x.addr, m)) else old(reverse))
      ensures x.addr !in old(owner) || old(owner)[x.addr] == m ==> Valid() && owner == old(owner)[x.addr := m]
      ensures x.addr in old(owner) && old(owner)[x.addr] != m ==> forall o: Owner :: !ByAlias(reverse, o, hash)
    {
      var i := FindEntry(m);
      var registered := LookupMain(x.addr);
      if registered == Some(m) {
        assert owner == owner[x.addr := m];
        return false;
      }
      var h := hash(m);
      var bucket := mids[h];
      if x.addr in owner {
        ClashBreaks(reverse, owner, hash, x.addr, m);
      } else {
        AddReverse(reverse, owner, hash, x.addr, m);
        EnlistedFits(mids, owner, hash, m, x);
      }
      if i < |bucket| {
        mids := mids[h := bucket[i := bucket[i].(aliases := [x] + bucket[i].aliases)]];
      } else {
        mids := mids[h := [Entry(m, [x])] + bucket];
      }
      reverse := reverse[hash(x.addr) := [Reverse(x.addr, m)] + reverse[hash(x.addr)]];
      owner := owner[x.addr := m];
      return true;
    }

    /** Take alias number `k` of an entry out of both indexes. */
    method Drop(h: nat, i: nat, k: nat)
      requires Valid() && h < |mids| && i < |mids[h]| && k < |mids[h][i].aliases|
      modifies this
      ensures Valid() && owner == old(owner) - {old(mids)[h][i].aliases[k].addr}
      ensures mids == old(mids)[h := old(mids)[h][i := old(mids)[h][i].(aliases := Without(old(mids)[h][i].aliases, k))]]
    {
      var e := mids[h][i];
      var a := e.aliases[k].addr;
      assert MainBucket(mids[h], h, owner, hash) && Complete(e, owner);
      CompleteDrop(e, owner, k);
      Replaced(mids, owner, owner - {a}, hash, a, h, i, e.(aliases := Without(e.aliases, k)));
      var at := FindReverse(Reverse(a, e.main));
      DropReverse(reverse, owner, hash, hash(a), at);
      mids := mids[h := mids[h][i := e.(aliases := Without(e.aliases, k))]];
      reverse := reverse[hash(a) := Without(reverse[hash(a)], at)];
      owner := owner - {a};
    }

    /** Where an alias sits in its bucket of the reverse index. */
    method FindReverse(r: Reverse) returns (i: nat)
      requires Valid() && Owned(r, owner)
      ensures i < |reverse[hash(r.alias)]| && reverse[hash(r.alias)][i] == r
    {
      var bucket := reverse[hash(r.alias)];
      assert AliasBucket(bucket, hash(r.alias), owner, hash);
      assert Reverse(r.alias, owner[r.alias]) in bucket;
      i := 0;
      while bucket[i] != r
        invariant i < |bucket| && r !in bucket[..i]
        decreases |bucket| - i
      {
        i := i + 1;
        assert i < |bucket| by {
          assert bucket[..i - 1] + [bucket[i - 1]] == bucket[..i];
          assert bucket[..|bucket|] == bucket;
        }
        assert bucket[..i] == bucket[..i - 1] + [bucket[i - 1]];
      }
    }

    /** Extend the time of alias number `k` of an entry. */
    method Touch(h: nat, i: nat, k: nat, until: nat)
      requires Valid() && h < |mids| && i < |mids[h]| && k < |mids[h][i].aliases|
      modifies this
      ensures Valid() && owner == old(owner)
      ensures var e := old(mids)[h][i];
        mids == old(mids)[h := old(mids)[h][i := e.(aliases := e.aliases[k := e.aliases[k].(validUntil := until)])]]
    {
      var e := mids[h][i];
      var after := e.(aliases := e.aliases[k := e.aliases[k].(validUntil := until)]);
      assert MainBucket(mids[h], h, owner, hash) && Complete(e, owner);
      CompleteTouch(e, owner, k, until);
      Replaced(mids, owner, owner, hash, e.aliases[k].addr, h, i, after);
      mids := mids[h := mids[h][i := after]];
    }

    /** `olsr_prune_aliases` on the entry found for the originator. */
    method PruneEntry(h: nat, i: nat, declared: seq<Address>, now: nat, until: nat)
      requires Valid() && h < |mids| && i < |mids[h]|
      modifies this
      ensures Valid() && |mids| == |old(mids)| && |mids[h]| == |old(mids)[h]|
      ensures mids[h][i] == Entry(old(mids)[h][i].main, Pruned(old(mids)[h][i].aliases, declared, now, until))
      ensures forall a :: a in old(owner) && old(owner)[a] != old(mids)[h][i].main ==> a in owner
      ensures forall a :: a in owner ==> a in old(owner) && owner[a] == old(owner)[a]
    {
      var m := mids[h][i].main;
      ghost var before := mids[h][i].aliases;
      ghost var done := 0;
      var k := 0;
      while k < |mids[h][i].aliases|
        invariant Valid() && |mids| == |old(mids)| && |mids[h]| == |old(mids)[h]| && mids[h][i].main == m
        invariant k <= |mids[h][i].aliases| && done <= |before| && mids[h][i].aliases[k..] == before[done..]
        invariant mids[h][i].aliases[..k] + Pruned(before[done..], declared, now, until) == Pruned(before, declared, now, until)
        invariant forall a :: a in old(owner) && old(owner)[a] != m ==> a in owner
        invariant forall a :: a in owner ==> a in old(owner) && owner[a] == old(owner)[a]
        decreases |before| - done
      {
        ghost var list := mids[h][i].aliases;
        var x := mids[h][i].aliases[k];
        PruneNext(list, k, before, done, declared, now, until);
        Slices(list, k, x.(validUntil := until));
        if x.addr in declared {
          Touch(h, i, k, until);
          k := k + 1;
        } else if declared != [] && !TimedOut(x.validUntil, now) {
          k := k + 1;
        } else {
          assert MainBucket(mids[h], h, owner, hash) && Complete(mids[h][i], owner);
          assert Lists(list, x.addr) && Owned(Reverse(x.addr, m), owner);
          Drop(h, i, k);
        }
        done := done + 1;
      }
      assert before[done..] == [] && mids[h][i].aliases[..k] == mids[h][i].aliases;
    }

    /** `olsr_delete_mid_entry` */
    method Delete(h: nat, i: nat)
      requires Valid() && h < |mids| && i < |mids[h]|
      modifies this
      ensures Valid()
      ensures forall a :: a in owner <==> a in old(owner) && old(owner)[a] != old(mids)[h][i].main
      ensures forall a :: a in owner ==> owner[a] == old(owner)[a]
    {
      var m := mids[h][i].main;
      while mids[h][i].aliases != []
        invariant Valid() && |mids| == |old(mids)| && |mids[h]| == |old(mids)[h]| && mids[h][i].main == m
        invariant forall a :: a in owner ==> a in old(owner) && owner[a] == old(owner)[a]
        invariant forall a :: a in old(owner) && old(owner)[a] != m ==> a in owner
        decreases |mids[h][i].aliases|
      {
        assert MainBucket(mids[h], h, owner, hash) && Complete(mids[h][i], owner);
        assert Lists(mids[h][i].aliases, mids[h][i].aliases[0].addr);
        Drop(h, i, 0);
      }
      assert MainBucket(mids[h], h, owner, hash) && Complete(mids[h][i], owner);
      assert forall a :: Owned(Reverse(a, m), owner) ==> Lists(mids[h][i].aliases, a);
      assert forall a :: a in owner ==> owner[a] != m by {
        forall a | a in owner ensures owner[a] != m {
          assert !Owned(Reverse(a, m), owner);
        }
      }
      Removed(mids, owner, hash, h, i);
      mids := mids[h := Without(mids[h], i)];
    }

    /** `insert_mid_alias`. A neighbour known under its alias loses the aliases it was main address of.
        The indexes go on agreeing exactly if after that the alias belongs to nobody else. */
    method InsertAlias(m: Address, a: Address, isValid: bool, isNeighbour: bool)
      requires Valid()
      modifies this
      ensures var left := Released(old(owner), a, isNeighbour);
        if isValid && a in left && left[a] != m then forall o: Owner :: !ByAlias(reverse, o, hash)
        else Valid() && owner == if isValid then left[a := m] else old(owner)
    {
      if !isValid {
        return;
      }
      if isNeighbour {
        var i := FindEntry(a);
        assert MainBucket(mids[hash(a)], hash(a), owner, hash);
        if i < |mids[hash(a)]| {
          Delete(hash(a), i);
        }
      }
      assert owner == Released(old(owner), a, isNeighbour);
      var _ := Insert(m, Alias(a, 0));
    }

    /** The part of `olsr_hello_tap` about aliases: the address a hello came from is an alias of its
        originator, unless it is known to belong to somebody else. */
    method HelloFrom(source: Address, from: Address, isValid: bool, isNeighbour: bool)
      requires Valid()
      modifies this
      ensures Valid()
      ensures owner == if source == from || !isValid || (from in old(owner) && old(owner)[from] != source) then old(owner)
                       else Released(old(owner), from, isNeighbour)[from := source]
    {
      if source != from && isValid {
        var main := LookupMain(from);
        if main == None || main == Some(source) {
          InsertAlias(source, from, isValid, isNeighbour);
        }
      }
    }

    /** `olsr_input_mid`: each declared alias that is not one of our own addresses and has no owner is
        given to the originator; then the originator's list is pruned. */
    method Message(orig: Address, declared: seq<Address>, own: set<Address>, isValid: Address -> bool,
                   isNeighbour: seq<bool>, now: nat, until: nat)
      requires Valid() && |isNeighbour| == |declared|
      modifies this
      ensures Valid()
      ensures forall a :: a in owner ==> owner[a] == orig || (a in old(owner) && owner[a] == old(owner)[a])
      ensures forall a :: a in owner && a !in old(owner) ==> a in declared && a !in own && isValid(a)
      ensures (forall k :: 0 <= k < |declared| ==> !isNeighbour[k]) ==>
                && (forall a :: a in declared && a !in own && isValid(a) && a !in old(owner) ==> a in owner && owner[a] == orig)
                && (forall a :: a in old(owner) && (old(owner)[a] != orig || a in declared) ==>
                      a in owner && owner[a] == old(owner)[a])
      ensures forall i :: 0 <= i < |mids[hash(orig)]| && mids[hash(orig)][i].main == orig ==>
                Justified(mids[hash(orig)][i].aliases, declared, now)
    {
      var k := 0;
      while k < |declared|
        invariant k <= |declared| && Valid()
        invariant forall a :: a in owner ==> owner[a] == orig || (a in old(owner) && owner[a] == old(owner)[a])
        invariant forall a :: a in owner && a !in old(owner) ==> a in declared && a !in own && isValid(a)
        invariant (forall j :: 0 <= j < |declared| ==> !isNeighbour[j]) ==>
                    && (forall j :: 0 <= j < k && declared[j] !in own && isValid(declared[j]) && declared[j] !in old(owner) ==>
                          declared[j] in owner && owner[declared[j]] == orig)
                    && (forall a :: a in old(owner) ==> a in owner && owner[a] == old(owner)[a])
      {
        var a := declared[k];
        if a !in own {
          var main := LookupMain(a);
          if main == None {
            InsertAlias(orig, a, isValid(a), isNeighbour[k]);
          }
        }
        k := k + 1;
      }
      var i := FindEntry(orig);
      if i < |mids[hash(orig)]| {
        ghost var before, given := mids[hash(orig)][i], owner;
        assert MainBucket(mids[hash(orig)], hash(orig), owner, hash) && Complete(before, owner);
        PruneEntry(hash(orig), i, declared, now, until);
        assert MainBucket(mids[hash(orig)], hash(orig), owner, hash) && Complete(mids[hash(orig)][i], owner);
        PrunedFrom(before.aliases, declared, now, until);
        forall a | a in declared && a in given && given[a] == orig ensures a in owner && owner[a] == orig {
          assert Owned(Reverse(a, orig), given) && Lists(before.aliases, a);
          DeclaredStays(before.aliases, declared, now, until, a);
          assert Owned(Reverse(a, orig), owner);
        }
      }
    }
  }

  /** Every alias kept was declared or has not timed out. */
  predicate Justified(aliases: seq<Alias>, declared: seq<Address>, now: nat) {
    forall y :: y in aliases && y.addr !in declared ==> declared != [] && !TimedOut(y.validUntil, now)
  }

  lemma DeclaredStays(aliases: seq<Alias>, declared: seq<Address>, now: nat, until: nat, a: Address)
    requires Lists(aliases, a) && a in declared
    ensures Lists(Pruned(aliases, declared, now, until), a)
  {
    var k :| 0 <= k < |aliases| && aliases[k].addr == a;
    PrunedLists(aliases, declared, now, until, aliases[k]);
    var kept := Pruned(aliases, declared, now, until);
    var j :| 0 <= j < |kept| && kept[j] == aliases[k].(validUntil := until);
  }

  /** The owners after the aliases of `a` are given up. */
  function Released(owner: Owner, a: Address, isNeighbour: bool): Owner {
    if isNeighbour then map x | x in owner && owner[x] != a :: owner[x] else owner
  }

  lemma ReleasedExactly(owner: Owner, a: Address, isNeighbour: bool, x: Address)
    ensures x in Released(owner, a, isNeighbour) <==> x in owner && !(isNeighbour && owner[x] == a)
    ensures x in Released(owner, a, isNeighbour) ==> Released(owner, a, isNeighbour)[x] == owner[x]
  {
  }

  /** A message that declares nothing removes every alias of its originator, timed out or not; any
      other message keeps exactly the aliases it declares and those not yet timed out. */
  lemma {:induction false} PrunedLists(aliases: seq<Alias>, declared: seq<Address>, now: nat, until: nat, x: Alias)
    requires x in aliases
    ensures declared == [] ==> Pruned(aliases, declared, now, until) == []
    ensures x.addr in declared ==> x.(validUntil := until) in Pruned(aliases, declared, now, until)
    ensures x.addr !in declared ==> (x in Pruned(aliases, declared, now, until) <==> declared != [] && !TimedOut(x.validUntil, now))
  {
    var rest := aliases[1..];
    assert aliases == [aliases[0]] + rest;
    PrunedFrom(rest, declared, now, until);
    if x in rest {
      PrunedLists(rest, declared, now, until, x);
    }
  }

  lemma {:induction false} PrunedFrom(aliases: seq<Alias>, declared: seq<Address>, now: nat, until: nat)
    ensures declared == [] ==> Pruned(aliases, declared, now, until) == []
    ensures forall y :: y in Pruned(aliases, declared, now, until) && y.addr !in declared ==>
              declared != [] && !TimedOut(y.validUntil, now)
  {
    if aliases != [] {
      PrunedFrom(aliases[1..], declared, now, until);
    }
  }
}

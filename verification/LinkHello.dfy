/** LQ_HELLO messages: the neighbours, grouped by link code, over as few messages as fit. */
module LinkHello {
  import opened OutputBuffer

  const MAX_NEIGH := 5
  const CLASSES := 24

  /** Link types in the order in which they are sent: unspecified, lost, asymmetric, symmetric. */
  const LINK_ORDER: seq<nat> := [0, 3, 1, 2]

  datatype Neighbour = Neighbour(neighType: nat, linkType: nat, addr: nat)

  /** The neighbours behind one info header. */
  datatype Group = Group(code: nat, size: nat, entries: seq<Neighbour>)

  datatype Hello = Hello(size: nat, groups: seq<Group>)

  const INFO_HEADER := 4

  /** Common header plus LQ_HELLO header. */
  function HeaderSize(ipsize: nat): nat {
    if ipsize == 4 then 20 else 32
  }

  /** An address and its link quality. */
  function EntrySize(ipsize: nat): nat {
    ipsize + 4
  }

  function EntryBytes(n: nat, ipsize: nat): nat {
    if n == 0 then 0 else EntryBytes(n - 1, ipsize) + EntrySize(ipsize)
  }

  /** Bytes of a group with `n` neighbours; an empty one has no header either. */
  function GroupBytes(n: nat, ipsize: nat): nat {
    if n == 0 then 0 else INFO_HEADER + EntryBytes(n, ipsize)
  }

  function GroupsBytes(groups: seq<Group>, ipsize: nat): nat {
    if groups == [] then 0
    else GroupsBytes(groups[..|groups| - 1], ipsize) + GroupBytes(|groups[|groups| - 1].entries|, ipsize)
  }

  predicate GoodGroups(groups: seq<Group>, ipsize: nat) {
    forall i :: 0 <= i < |groups| ==> groups[i].entries != [] && groups[i].size == GroupBytes(|groups[i].entries|, ipsize)
  }

  /** The size fields of a message and of its groups match what they hold. */
  predicate GoodHello(h: Hello, ipsize: nat) {
    GoodGroups(h.groups, ipsize) && h.size == HeaderSize(ipsize) + GroupsBytes(h.groups, ipsize)
  }

  /** A transmitted neighbour together with the link code it is sent under. */
  datatype Sent = Sent(code: nat, neighbour: Neighbour)

  function Tagged(code: nat, entries: seq<Neighbour>): (r: seq<Sent>)
    ensures |r| == |entries|
  {
    if entries == [] then [] else Tagged(code, entries[..|entries| - 1]) + [Sent(code, entries[|entries| - 1])]
  }

  function InGroups(groups: seq<Group>): seq<Sent> {
    if groups == [] then []
    else InGroups(groups[..|groups| - 1]) + Tagged(groups[|groups| - 1].code, groups[|groups| - 1].entries)
  }

  function InMessages(msgs: seq<Hello>): seq<Sent> {
    if msgs == [] then [] else InMessages(msgs[..|msgs| - 1]) + InGroups(msgs[|msgs| - 1].groups)
  }

  lemma InGroupsAppend(groups: seq<Group>, g: Group, ipsize: nat)
    ensures InGroups(groups + [g]) == InGroups(groups) + Tagged(g.code, g.entries)
    ensures GroupsBytes(groups + [g], ipsize) == GroupsBytes(groups, ipsize) + GroupBytes(|g.entries|, ipsize)
  {
    assert (groups + [g])[..|groups|] == groups;
  }

  lemma InMessagesAppend(msgs: seq<Hello>, h: Hello)
    ensures InMessages(msgs + [h]) == InMessages(msgs) + InGroups(h.groups)
  {
    assert (msgs + [h])[..|msgs|] == msgs;
  }

  lemma TaggedAppend(code: nat, entries: seq<Neighbour>, n: Neighbour)
    ensures Tagged(code, entries + [n]) == Tagged(code, entries) + [Sent(code, n)]
  {
    assert (entries + [n])[..|entries|] == entries;
  }

  // ---------------------------------------------------------------- the message under construction

  /** Messages already pushed, the finished groups of the current one, the group whose info
      header is still open, the bytes used and the bytes available for the body. */
  datatype Draft = Draft(pushed: seq<Hello>, groups: seq<Group>, code: nat, open: seq<Neighbour>, size: nat, rem: int)

  function EmptyDraft(rem: int): Draft {
    Draft([], [], 0, [], 0, rem)
  }

  /** Whether a neighbour under this code starts a new group. */
  predicate StartsGroup(d: Draft, code: nat) {
    d.open == [] || d.code != code
  }

  /** Bytes the next neighbour needs, with an info header if it is the first of its group. */
  function Need(d: Draft, code: nat, ipsize: nat): nat {
    EntrySize(ipsize) + if StartsGroup(d, code) then INFO_HEADER else 0
  }

  /** The groups once the size field of the open info header is filled in. */
  function ClosedGroups(d: Draft, ipsize: nat): seq<Group> {
    if d.open == [] then d.groups
    else d.groups + [Group(d.code, GroupBytes(|d.open|, ipsize), d.open)]
  }

  function Finished(d: Draft, ipsize: nat): Hello {
    Hello(HeaderSize(ipsize) + d.size, ClosedGroups(d, ipsize))
  }

  predicate Overflows(d: Draft, code: nat, ipsize: nat) {
    d.size + Need(d, code, ipsize) > d.rem
  }

  /** One more neighbour; if it does not fit the message is finished and a new one, with `full`
      bytes for its body, is begun. */
  function Put(d: Draft, x: Sent, full: int, ipsize: nat): Draft {
    if Overflows(d, x.code, ipsize)
    then Draft(d.pushed + [Finished(d, ipsize)], [], x.code, [x.neighbour], INFO_HEADER + EntrySize(ipsize), full)
    else if StartsGroup(d, x.code)
    then Draft(d.pushed, ClosedGroups(d, ipsize), x.code, [x.neighbour], d.size + Need(d, x.code, ipsize), d.rem)
    else Draft(d.pushed, d.groups, x.code, d.open + [x.neighbour], d.size + Need(d, x.code, ipsize), d.rem)
  }

  /** Everything written so far. */
  function Contents(d: Draft): seq<Sent> {
    InMessages(d.pushed) + InGroups(d.groups) + Tagged(d.code, d.open)
  }

  predicate AllGood(msgs: seq<Hello>, ipsize: nat, capacity: nat) {
    forall i :: 0 <= i < |msgs| ==> GoodHello(msgs[i], ipsize) && msgs[i].size <= capacity
  }

  /** The messages are well formed and fit, and so does the one under construction. */
  predicate Sound(d: Draft, ipsize: nat, capacity: nat) {
    && d.size == GroupsBytes(d.groups, ipsize) + GroupBytes(|d.open|, ipsize)
    && d.size <= d.rem && HeaderSize(ipsize) + d.rem <= capacity
    && GoodGroups(d.groups, ipsize)
    && AllGood(d.pushed, ipsize, capacity)
  }

  lemma FinishedGood(d: Draft, ipsize: nat, capacity: nat)
    requires Sound(d, ipsize, capacity)
    ensures GoodGroups(ClosedGroups(d, ipsize), ipsize)
    ensures GroupsBytes(ClosedGroups(d, ipsize), ipsize) == d.size
    ensures GoodHello(Finished(d, ipsize), ipsize) && Finished(d, ipsize).size <= capacity
  {
    if d.open != [] {
      InGroupsAppend(d.groups, Group(d.code, GroupBytes(|d.open|, ipsize), d.open), ipsize);
    }
  }

  lemma ClosedContents(d: Draft, ipsize: nat)
    ensures InGroups(ClosedGroups(d, ipsize)) == InGroups(d.groups) + Tagged(d.code, d.open)
  {
    if d.open != [] {
      InGroupsAppend(d.groups, Group(d.code, GroupBytes(|d.open|, ipsize), d.open), ipsize);
    }
  }

  lemma PutSound(d: Draft, x: Sent, full: int, ipsize: nat, capacity: nat)
    requires Sound(d, ipsize, capacity)
    requires INFO_HEADER + EntrySize(ipsize) <= full && HeaderSize(ipsize) + full <= capacity
    ensures Sound(Put(d, x, full, ipsize), ipsize, capacity)
  {
    FinishedGood(d, ipsize, capacity);
    OneEntry(ipsize);
    if Overflows(d, x.code, ipsize) {
      AllGoodNext(d.pushed, Finished(d, ipsize), ipsize, capacity);
      assert GroupsBytes([], ipsize) == 0;
    } else if !StartsGroup(d, x.code) {
      OneMoreEntry(|d.open|, ipsize);
    }
  }

  lemma OneEntry(ipsize: nat)
    ensures GroupBytes(1, ipsize) == INFO_HEADER + EntrySize(ipsize)
  {
    assert EntryBytes(1, ipsize) == EntrySize(ipsize);
  }

  lemma OneMoreEntry(n: nat, ipsize: nat)
    requires n > 0
    ensures GroupBytes(n + 1, ipsize) == GroupBytes(n, ipsize) + EntrySize(ipsize)
  {
  }

  lemma AllGoodNext(msgs: seq<Hello>, h: Hello, ipsize: nat, capacity: nat)
    requires AllGood(msgs, ipsize, capacity) && GoodHello(h, ipsize) && h.size <= capacity
    ensures AllGood(msgs + [h], ipsize, capacity)
  {
  }

  lemma TaggedOne(x: Sent)
    ensures Tagged(x.code, [x.neighbour]) == [x]
  {
    TaggedAppend(x.code, [], x.neighbour);
    assert [] + [x.neighbour] == [x.neighbour];
  }

  lemma Regroup(a: seq<Sent>, b: seq<Sent>, c: seq<Sent>, x: Sent)
    ensures (a + (b + c)) + [] + [x] == (a + b + c) + [x]
    ensures a + (b + c) + [x] == (a + b + c) + [x]
    ensures a + b + (c + [x]) == (a + b + c) + [x]
  {
  }

  /** Nothing is lost or reordered when a group or a message is closed. */
  lemma PutContents(d: Draft, x: Sent, full: int, ipsize: nat)
    ensures Contents(Put(d, x, full, ipsize)) == Contents(d) + [x]
  {
    ClosedContents(d, ipsize);
    TaggedOne(x);
    Regroup(InMessages(d.pushed), InGroups(d.groups), Tagged(d.code, d.open), x);
    if Overflows(d, x.code, ipsize) {
      InMessagesAppend(d.pushed, Finished(d, ipsize));
    } else if !StartsGroup(d, x.code) {
      TaggedAppend(x.code, d.open, x.neighbour);
    }
  }

  // ---------------------------------------------------------------- whole runs

  /** Bytes of `items` in one unsplit message. */
  function Unsplit(items: seq<Sent>, ipsize: nat): nat {
    if items == [] then 0
    else
      var n := |items| - 1;
      Unsplit(items[..n], ipsize) + EntrySize(ipsize)
      + if n == 0 || items[n - 1].code != items[n].code then INFO_HEADER else 0
  }

  predicate EndsWith(items: seq<Sent>, code: nat) {
    items != [] && items[|items| - 1].code == code
  }

  lemma UnsplitAppend(before: seq<Sent>, x: Sent, ipsize: nat)
    ensures Unsplit(before + [x], ipsize) ==
            Unsplit(before, ipsize) + EntrySize(ipsize) + if EndsWith(before, x.code) then 0 else INFO_HEADER
  {
    assert (before + [x])[..|before|] == before;
  }

  lemma {:induction false} UnsplitMonotone(items: seq<Sent>, k: nat, ipsize: nat)
    requires k <= |items|
    ensures Unsplit(items[..k], ipsize) <= Unsplit(items, ipsize)
    decreases |items|
  {
    if k < |items| {
      assert items[..|items| - 1][..k] == items[..k];
      UnsplitMonotone(items[..|items| - 1], k, ipsize);
    } else {
      assert items[..k] == items;
    }
  }

  lemma UnsplitNext(items: seq<Sent>, k: nat, ipsize: nat)
    requires k < |items|
    ensures items[..k + 1] == items[..k] + [items[k]] && Unsplit(items[..k] + [items[k]], ipsize) <= Unsplit(items, ipsize)
  {
    UnsplitMonotone(items, k + 1, ipsize);
    assert items[..k + 1] == items[..k] + [items[k]];
  }

  /** With `rem` bytes for the first message, it is split exactly when `done` does not fit; the
      group left open is that of the last neighbour. */
  predicate SplitExactly(d: Draft, done: seq<Sent>, rem: int, ipsize: nat) {
    && (d.pushed == [] ==> d.rem == rem && d.size == Unsplit(done, ipsize))
    && (d.pushed != [] ==> Unsplit(done, ipsize) > rem)
    && (d.open == [] <==> done == []) && (done != [] ==> d.code == done[|done| - 1].code)
  }

  lemma PutSplits(d: Draft, done: seq<Sent>, x: Sent, rem: int, full: int, ipsize: nat)
    requires SplitExactly(d, done, rem, ipsize)
    ensures SplitExactly(Put(d, x, full, ipsize), done + [x], rem, ipsize)
    ensures d.pushed == [] && Overflows(d, x.code, ipsize) ==> Unsplit(done + [x], ipsize) > rem
  {
    UnsplitAppend(done, x, ipsize);
  }

  /** The draft holds exactly `done`, well formed, and is split only if it must be. */
  predicate Written(d: Draft, done: seq<Sent>, rem: int, ipsize: nat, capacity: nat) {
    Contents(d) == done && Sound(d, ipsize, capacity) && SplitExactly(d, done, rem, ipsize)
  }

  lemma PutWritten(d: Draft, done: seq<Sent>, x: Sent, rem: int, ipsize: nat, capacity: nat)
    requires Written(d, done, rem, ipsize, capacity)
    requires HeaderSize(ipsize) + INFO_HEADER + EntrySize(ipsize) <= capacity
    ensures Written(Put(d, x, capacity - HeaderSize(ipsize), ipsize), done + [x], rem, ipsize, capacity)
  {
    var full := capacity - HeaderSize(ipsize);
    PutContents(d, x, full, ipsize);
    PutSound(d, x, full, ipsize, capacity);
    PutSplits(d, done, x, rem, full, ipsize);
  }

  function AllMessages(d: Draft, ipsize: nat): seq<Hello> {
    d.pushed + [Finished(d, ipsize)]
  }

  lemma FinishedContents(d: Draft, ipsize: nat)
    ensures InMessages(AllMessages(d, ipsize)) == Contents(d)
  {
    var h := Finished(d, ipsize);
    ClosedContents(d, ipsize);
    InMessagesAppend(d.pushed, h);
    Rejoin(InMessages(d.pushed + [h]), InMessages(d.pushed), InGroups(h.groups), InGroups(d.groups), Tagged(d.code, d.open));
  }

  lemma Rejoin(whole: seq<Sent>, a: seq<Sent>, rest: seq<Sent>, b: seq<Sent>, c: seq<Sent>)
    requires whole == a + rest && rest == b + c
    ensures whole == a + b + c
  {
  }

  lemma FinalMessages(d: Draft, items: seq<Sent>, rem: int, ipsize: nat, capacity: nat)
    requires Written(d, items, rem, ipsize, capacity)
    ensures InMessages(AllMessages(d, ipsize)) == items && AllGood(AllMessages(d, ipsize), ipsize, capacity)
    ensures |AllMessages(d, ipsize)| == 1 <==> Unsplit(items, ipsize) <= rem
  {
    FinishedContents(d, ipsize);
    FinishedGood(d, ipsize, capacity);
  }

  // ---------------------------------------------------------------- the order of the groups

  /** Class `c` of the two outer loops: neighbour type `c / 4`, link type by position. */
  predicate InClass(n: Neighbour, c: nat) {
    n.neighType == c / 4 && n.linkType == LINK_ORDER[c % 4]
  }

  /** `CREATE_LINK_CODE`. */
  function LinkCode(c: nat): nat {
    LINK_ORDER[c % 4] + 4 * (c / 4)
  }

  /** `EXTRACT_STATUS` and `EXTRACT_LINK` recover the class from the code. */
  lemma LinkCodeRoundTrip(c: nat)
    requires c < CLASSES
    ensures LinkCode(c) < 32
    ensures LinkCode(c) % 32 / 4 == c / 4 && LinkCode(c) % 4 == LINK_ORDER[c % 4]
  {
  }

  lemma LinkCodesDiffer(c: nat, d: nat)
    requires c < d < CLASSES
    ensures LinkCode(c) != LinkCode(d)
  {
    LinkCodeRoundTrip(c);
    LinkCodeRoundTrip(d);
  }

  /** The neighbours of class `c`, in list order. */
  function Wanted(list: seq<Neighbour>, c: nat): seq<Neighbour> {
    if list == [] then []
    else Wanted(list[..|list| - 1], c) + if InClass(list[|list| - 1], c) then [list[|list| - 1]] else []
  }

  /** What the first `c` classes amount to. */
  function Expected(list: seq<Neighbour>, c: nat): seq<Sent> {
    InTurn(LinkCode, WantedIn(list), c)
  }

  function WantedIn(list: seq<Neighbour>): nat -> seq<Neighbour> {
    (c: nat) => Wanted(list, c)
  }

  /** The first `c` groups one after the other. */
  function InTurn(code: nat -> nat, group: nat -> seq<Neighbour>, c: nat): seq<Sent> {
    if c == 0 then [] else InTurn(code, group, c - 1) + Tagged(code(c - 1), group(c - 1))
  }

  function TotalBy(group: nat -> seq<Neighbour>, c: nat, ipsize: nat): nat {
    if c == 0 then 0 else TotalBy(group, c - 1, ipsize) + GroupBytes(|group(c - 1)|, ipsize)
  }

  /** Bytes of the first `c` classes in one message. */
  function Total(list: seq<Neighbour>, c: nat, ipsize: nat): nat {
    TotalBy(WantedIn(list), c, ipsize)
  }

  lemma WantedNext(list: seq<Neighbour>, k: nat, c: nat)
    requires k < |list|
    ensures Wanted(list[..k + 1], c) == Wanted(list[..k], c) + if InClass(list[k], c) then [list[k]] else []
  {
    assert list[..k + 1][..k] == list[..k];
  }

  lemma {:induction false} GroupBytesMonotone(n: nat, m: nat, ipsize: nat)
    requires n <= m
    ensures EntryBytes(n, ipsize) <= EntryBytes(m, ipsize) && GroupBytes(n, ipsize) <= GroupBytes(m, ipsize)
  {
    if n < m {
      GroupBytesMonotone(n, m - 1, ipsize);
    }
  }

  // ---------------------------------------------------------------- the size estimate

  function Headers(list: seq<Neighbour>, c: nat): nat {
    if c == 0 then 0 else Headers(list, c - 1) + if Wanted(list, c - 1) == [] then 0 else INFO_HEADER
  }

  function Admitted(list: seq<Neighbour>, c: nat): nat {
    if c == 0 then 0 else Admitted(list, c - 1) + |Wanted(list, c - 1)|
  }

  /** How many of the first `c` classes a neighbour belongs to. */
  function Hits(n: Neighbour, c: nat): nat {
    if c == 0 then 0 else Hits(n, c - 1) + if InClass(n, c - 1) then 1 else 0
  }

  lemma ClassUnique(n: Neighbour, c: nat, d: nat)
    requires InClass(n, c) && InClass(n, d)
    ensures c == d
  {
    assert c == 4 * (c / 4) + c % 4 && d == 4 * (d / 4) + d % 4;
  }

  lemma {:induction false} NoHits(n: Neighbour, c: nat, d: nat)
    requires c <= d && InClass(n, d)
    ensures Hits(n, c) == 0
  {
    if c > 0 {
      NoHits(n, c - 1, d);
      if InClass(n, c - 1) {
        ClassUnique(n, c - 1, d);
      }
    }
  }

  lemma {:induction false} AtMostOneHit(n: Neighbour, c: nat)
    ensures Hits(n, c) <= 1
  {
    if c > 0 {
      AtMostOneHit(n, c - 1);
      if InClass(n, c - 1) {
        NoHits(n, c - 1, c - 1);
      }
    }
  }

  lemma {:induction false} AdmittedNext(list: seq<Neighbour>, c: nat)
    requires list != []
    ensures Admitted(list, c) == Admitted(list[..|list| - 1], c) + Hits(list[|list| - 1], c)
  {
    if c > 0 {
      AdmittedNext(list, c - 1);
    }
  }

  lemma {:induction false} AdmittedBound(list: seq<Neighbour>, c: nat)
    ensures Admitted(list, c) <= |list|
    decreases |list|
  {
    if list == [] {
      AdmittedEmpty(c);
    } else {
      AdmittedNext(list, c);
      AtMostOneHit(list[|list| - 1], c);
      AdmittedBound(list[..|list| - 1], c);
    }
  }

  lemma {:induction false} AdmittedEmpty(c: nat)
    ensures Admitted([], c) == 0
  {
    if c > 0 {
      AdmittedEmpty(c - 1);
    }
  }

  lemma {:induction false} EntryBytesAdd(a: nat, b: nat, ipsize: nat)
    ensures EntryBytes(a + b, ipsize) == EntryBytes(a, ipsize) + EntryBytes(b, ipsize)
  {
    if b > 0 {
      EntryBytesAdd(a, b - 1, ipsize);
    }
  }

  lemma {:induction false} TotalParts(list: seq<Neighbour>, c: nat, ipsize: nat)
    ensures Total(list, c, ipsize) == Headers(list, c) + EntryBytes(Admitted(list, c), ipsize)
  {
    if c > 0 {
      TotalParts(list, c - 1, ipsize);
      EntryBytesAdd(Admitted(list, c - 1), |Wanted(list, c - 1)|, ipsize);
    }
  }

  /** The first double loop of `serialize_lq_hello`: every neighbour counted, whether or not its
      class is ever sent, and a header for every class that occurs. */
  method EstimateSize(list: seq<Neighbour>, ipsize: nat) returns (expected: nat)
    ensures expected == EntryBytes(|list|, ipsize) + Headers(list, CLASSES)
    ensures Total(list, CLASSES, ipsize) <= expected
  {
    expected := EntryBytes(|list|, ipsize);
    var c := 0;
    while c < CLASSES
      invariant 0 <= c <= CLASSES
      invariant expected == EntryBytes(|list|, ipsize) + Headers(list, c)
    {
      if Wanted(list, c) != [] {
        expected := expected + INFO_HEADER;
      }
      c := c + 1;
    }
    TotalParts(list, CLASSES, ipsize);
    AdmittedBound(list, CLASSES);
    GroupBytesMonotone(Admitted(list, CLASSES), |list|, ipsize);
  }

  /** One, if what is queued is sent off first because the message may not fit behind it. */
  function Flushes(pending: nat, left: nat, list: seq<Neighbour>, ipsize: nat): nat {
    if 0 < pending && left < HeaderSize(ipsize) + EntryBytes(|list|, ipsize) + Headers(list, CLASSES) then 1 else 0
  }

  /** Flush the buffer unless the whole message fits behind what is already queued. */
  method MakeRoom(list: seq<Neighbour>, ipsize: nat, out: Buffer<Hello>)
    requires out.Valid() && out.Capacity() >= HeaderSize(ipsize)
    modifies out
    ensures out.Valid() && out.Stream() == old(out.Stream()) && out.BytesLeft() >= HeaderSize(ipsize)
    ensures out.pending == 0 || HeaderSize(ipsize) + Total(list, CLASSES, ipsize) <= out.BytesLeft()
    ensures |out.packets| == |old(out.packets)| + Flushes(old(out.pending), old(out.BytesLeft()), list, ipsize)
  {
    var rem := out.BytesLeft() - HeaderSize(ipsize);
    var expected := 0;
    if 0 < out.pending {
      expected := EstimateSize(list, ipsize);
    }
    if rem < expected {
      out.Output();
    }
  }


  lemma {:induction false} UnsplitGroup(before: seq<Sent>, code: nat, w: seq<Neighbour>, ipsize: nat)
    requires !EndsWith(before, code)
    ensures Unsplit(before + Tagged(code, w), ipsize) == Unsplit(before, ipsize) + GroupBytes(|w|, ipsize)
    ensures w != [] ==> EndsWith(before + Tagged(code, w), code)
  {
    if w == [] {
      assert before + Tagged(code, w) == before;
    } else {
      var n := |w| - 1;
      UnsplitGroup(before, code, w[..n], ipsize);
      var shorter := before + Tagged(code, w[..n]);
      assert before + Tagged(code, w) == shorter + [Sent(code, w[n])];
      UnsplitAppend(shorter, Sent(code, w[n]), ipsize);
      if n == 0 {
        assert shorter == before;
      }
    }
  }

  lemma TaggedEnds(before: seq<Sent>, code: nat, w: seq<Neighbour>)
    requires w != []
    ensures EndsWith(before + Tagged(code, w), code)
  {
  }

  /** No later group has the code that was written last. */
  lemma {:induction false} LastCode(code: nat -> nat, group: nat -> seq<Neighbour>, c: nat, d: nat, n: nat)
    requires c <= d < n && forall i: nat, j: nat :: i < j < n ==> code(i) != code(j)
    ensures !EndsWith(InTurn(code, group, c), code(d))
  {
    if c > 0 {
      var before, w := InTurn(code, group, c - 1), group(c - 1);
      if w == [] {
        assert InTurn(code, group, c) == before;
        LastCode(code, group, c - 1, d, n);
      } else {
        TaggedEnds(before, code(c - 1), w);
      }
    }
  }

  lemma {:induction false} UnsplitInTurn(code: nat -> nat, group: nat -> seq<Neighbour>, c: nat, n: nat, ipsize: nat)
    requires c <= n && forall i: nat, j: nat :: i < j < n ==> code(i) != code(j)
    ensures Unsplit(InTurn(code, group, c), ipsize) == TotalBy(group, c, ipsize)
  {
    if c > 0 {
      UnsplitInTurn(code, group, c - 1, n, ipsize);
      LastCode(code, group, c - 1, c - 1, n);
      UnsplitClass(InTurn(code, group, c - 1), InTurn(code, group, c), code(c - 1), group(c - 1), ipsize);
    }
  }

  lemma UnsplitTotal(list: seq<Neighbour>, c: nat, ipsize: nat)
    requires c <= CLASSES
    ensures Unsplit(Expected(list, c), ipsize) == Total(list, c, ipsize)
  {
    CodesDistinct();
    UnsplitInTurn(LinkCode, WantedIn(list), c, CLASSES, ipsize);
  }

  lemma CodesDistinct()
    ensures forall i: nat, j: nat :: i < j < CLASSES ==> LinkCode(i) != LinkCode(j)
  {
    forall i: nat, j: nat | i < j < CLASSES ensures LinkCode(i) != LinkCode(j) {
      LinkCodesDiffer(i, j);
    }
  }

  lemma UnsplitClass(before: seq<Sent>, whole: seq<Sent>, code: nat, w: seq<Neighbour>, ipsize: nat)
    requires whole == before + Tagged(code, w) && !EndsWith(before, code)
    ensures Unsplit(whole, ipsize) == Unsplit(before, ipsize) + GroupBytes(|w|, ipsize)
  {
    UnsplitGroup(before, code, w, ipsize);
  }

  lemma EnumerateNext(list: seq<Neighbour>, c: nat, k: nat)
    requires k < |list|
    ensures Expected(list, c) + Tagged(LinkCode(c), Wanted(list[..k + 1], c)) ==
            Expected(list, c) + Tagged(LinkCode(c), Wanted(list[..k], c))
            + if InClass(list[k], c) then [Sent(LinkCode(c), list[k])] else []
  {
    WantedNext(list, k, c);
    if InClass(list[k], c) {
      TaggedAppend(LinkCode(c), Wanted(list[..k], c), list[k]);
    } else {
      assert Wanted(list[..k + 1], c) == Wanted(list[..k], c);
    }
  }

  /** The innermost loop for class `c`. */
  method EnumerateClass(list: seq<Neighbour>, c: nat, before: seq<Sent>) returns (items: seq<Sent>)
    requires before == Expected(list, c)
    ensures items == Expected(list, c + 1)
  {
    items := before;
    var k := 0;
    while k < |list|
      invariant 0 <= k <= |list|
      invariant items == before + Tagged(LinkCode(c), Wanted(list[..k], c))
    {
      EnumerateNext(list, c, k);
      if InClass(list[k], c) {
        items := items + [Sent(LinkCode(c), list[k])];
      }
      k := k + 1;
    }
    assert list[..k] == list;
  }

  /** The triple loop of `serialize_lq_hello` over neighbour types, link types and neighbours:
      what is written, in order. */
  method Enumerate(list: seq<Neighbour>) returns (items: seq<Sent>)
    ensures items == Expected(list, CLASSES)
  {
    items := [];
    var c := 0;
    while c < CLASSES
      invariant 0 <= c <= CLASSES && items == Expected(list, c)
    {
      items := EnumerateClass(list, c, items);
      c := c + 1;
    }
  }

  /** The messages together carry exactly the neighbours of the admitted classes, each under
      its own code and in list order within its class. */
  predicate Carries(list: seq<Neighbour>, msgs: seq<Hello>) {
    InMessages(msgs) == Expected(list, CLASSES)
  }

  /** The neighbours received under a code, in order. */
  function Under(items: seq<Sent>, code: nat): seq<Neighbour> {
    if items == [] then []
    else
      var x := items[|items| - 1];
      Under(items[..|items| - 1], code) + if x.code == code then [x.neighbour] else []
  }

  /** The neighbours of these types, in list order. */
  function OfTypes(list: seq<Neighbour>, neighType: nat, linkType: nat): seq<Neighbour> {
    if list == [] then []
    else
      var n := list[|list| - 1];
      OfTypes(list[..|list| - 1], neighType, linkType) + if n.neighType == neighType && n.linkType == linkType then [n] else []
  }

  /** What a receiver makes of the messages: under the code of a neighbour type up to 5 and a link type up to 3 exactly
      the neighbours of these types, each as often and in the order in which they are listed. */
  lemma ReceivedByCode(list: seq<Neighbour>, msgs: seq<Hello>, neighType: nat, linkType: nat)
    requires Carries(list, msgs) && neighType <= 5 && linkType <= 3
    ensures Under(InMessages(msgs), linkType + 4 * neighType) == OfTypes(list, neighType, linkType)
  {
    ReceivedItems(list, InMessages(msgs), CLASSES, neighType, linkType);
  }

  lemma ReceivedItems(list: seq<Neighbour>, items: seq<Sent>, n: nat, neighType: nat, linkType: nat)
    requires n == CLASSES && items == Expected(list, n) && neighType <= 5 && linkType <= 3
    ensures Under(items, linkType + 4 * neighType) == OfTypes(list, neighType, linkType)
  {
    var d := ClassOf(neighType, linkType);
    UnderClasses(list, n, d);
    WantedTypes(list, d, neighType, linkType);
  }

  lemma UnderClasses(list: seq<Neighbour>, n: nat, d: nat)
    requires d < n <= CLASSES
    ensures Under(Expected(list, n), LinkCode(d)) == Wanted(list, d)
  {
    CodesDistinct();
    UnderInTurn(LinkCode, WantedIn(list), n, d, n);
  }

  lemma ClassOf(neighType: nat, linkType: nat) returns (d: nat)
    requires neighType <= 5 && linkType <= 3
    ensures d < CLASSES && LinkCode(d) == linkType + 4 * neighType && d / 4 == neighType && LINK_ORDER[d % 4] == linkType
  {
    d := 4 * neighType + [0, 2, 3, 1][linkType];
  }

  /** Nothing is received under any other code. */
  lemma NothingElseReceived(list: seq<Neighbour>, msgs: seq<Hello>, code: nat)
    requires Carries(list, msgs) && code >= 24
    ensures Under(InMessages(msgs), code) == []
  {
    forall i: nat | i < CLASSES ensures LinkCode(i) != code {
      CodeBelow(i);
    }
    NoSuchCode(LinkCode, WantedIn(list), CLASSES, code);
  }

  lemma {:induction false} UnderAppend(a: seq<Sent>, b: seq<Sent>, code: nat)
    ensures Under(a + b, code) == Under(a, code) + Under(b, code)
  {
    if b == [] {
      assert a + b == a;
    } else {
      UnderAppend(a, b[..|b| - 1], code);
      assert (a + b)[..|a + b| - 1] == a + b[..|b| - 1];
    }
  }

  lemma {:induction false} UnderTagged(tag: nat, entries: seq<Neighbour>, code: nat)
    ensures Under(Tagged(tag, entries), code) == if tag == code then entries else []
  {
    if entries != [] {
      var front := entries[..|entries| - 1];
      UnderTagged(tag, front, code);
      assert Tagged(tag, entries)[..|front|] == Tagged(tag, front);
      assert entries == front + [entries[|front|]];
    }
  }

  lemma UnderNext(front: seq<Sent>, tag: nat, entries: seq<Neighbour>, code: nat)
    ensures Under(front + Tagged(tag, entries), code) == Under(front, code) + if tag == code then entries else []
  {
    UnderAppend(front, Tagged(tag, entries), code);
    UnderTagged(tag, entries, code);
  }

  lemma {:induction false} UnderInTurn(code: nat -> nat, group: nat -> seq<Neighbour>, c: nat, d: nat, n: nat)
    requires c <= n && d < n && forall i: nat, j: nat :: i < j < n ==> code(i) != code(j)
    ensures Under(InTurn(code, group, c), code(d)) == if d < c then group(d) else []
  {
    if c > 0 {
      UnderInTurn(code, group, c - 1, d, n);
      UnderNext(InTurn(code, group, c - 1), code(c - 1), group(c - 1), code(d));
    }
  }

  lemma {:induction false} NoSuchCode(code: nat -> nat, group: nat -> seq<Neighbour>, c: nat, other: nat)
    requires forall i: nat :: i < c ==> code(i) != other
    ensures Under(InTurn(code, group, c), other) == []
  {
    if c > 0 {
      NoSuchCode(code, group, c - 1, other);
      UnderNext(InTurn(code, group, c - 1), code(c - 1), group(c - 1), other);
    }
  }

  lemma CodeBelow(c: nat)
    requires c < CLASSES
    ensures LinkCode(c) < 24
  {
  }

  lemma {:induction false} WantedTypes(list: seq<Neighbour>, c: nat, neighType: nat, linkType: nat)
    requires c / 4 == neighType && LINK_ORDER[c % 4] == linkType
    ensures Wanted(list, c) == OfTypes(list, neighType, linkType)
  {
    if list != [] {
      WantedTypes(list[..|list| - 1], c, neighType, linkType);
    }
  }

  /** The buffer holds exactly what the draft has pushed. */
  ghost predicate InStep(d: Draft, base: seq<Hello>, ipsize: nat, out: Buffer<Hello>)
    reads out
  {
    out.Valid() && out.Stream() == base + d.pushed && d.rem == out.BytesLeft() - HeaderSize(ipsize)
  }

  /** The body of the innermost loop: a message that is full is pushed and the packet sent off. */
  method WriteNeighbour(x: Sent, draft: Draft, ghost done: seq<Sent>, ghost rem: int, ghost base: seq<Hello>, ipsize: nat,
                        out: Buffer<Hello>)
    returns (d: Draft)
    requires HeaderSize(ipsize) + INFO_HEADER + EntrySize(ipsize) <= out.Capacity()
    requires Written(draft, done, rem, ipsize, out.Capacity()) && InStep(draft, base, ipsize, out)
    requires out.pending == 0 || Unsplit(done + [x], ipsize) <= rem
    modifies out
    ensures Written(d, done + [x], rem, ipsize, out.Capacity()) && InStep(d, base, ipsize, out)
    ensures out.pending == 0 <==> old(out.pending) == 0
    ensures |out.packets| - |d.pushed| == |old(out.packets)| - |draft.pushed|
  {
    ghost var full := out.Capacity() - HeaderSize(ipsize);
    PutWritten(draft, done, x, rem, ipsize, out.Capacity());
    PutSplits(draft, done, x, rem, full, ipsize);
    if out.pending != 0 {
      SplitMonotone(draft, done, x, rem, ipsize);
    }
    d := Put(draft, x, out.Capacity() - HeaderSize(ipsize), ipsize);
    if Overflows(draft, x.code, ipsize) {
      var h := Finished(draft, ipsize);
      out.PushOut(h, h.size);
      assert base + draft.pushed + [h] == base + (draft.pushed + [h]);
    }
  }

  lemma SplitMonotone(d: Draft, done: seq<Sent>, x: Sent, rem: int, ipsize: nat)
    requires SplitExactly(d, done, rem, ipsize) && Unsplit(done + [x], ipsize) <= rem
    ensures d.pushed == []
  {
    UnsplitAppend(done, x, ipsize);
  }

  /** The writing loop. */
  method WriteLoop(items: seq<Sent>, ghost base: seq<Hello>, ipsize: nat, out: Buffer<Hello>) returns (d: Draft)
    requires out.Valid() && out.Stream() == base && out.BytesLeft() >= HeaderSize(ipsize)
    requires out.Capacity() >= HeaderSize(ipsize) + INFO_HEADER + EntrySize(ipsize)
    requires out.pending == 0 || HeaderSize(ipsize) + Unsplit(items, ipsize) <= out.BytesLeft()
    modifies out
    ensures Written(d, items, old(out.BytesLeft()) - HeaderSize(ipsize), ipsize, out.Capacity()) && InStep(d, base, ipsize, out)
    ensures |out.packets| == |old(out.packets)| + |d.pushed|
  {
    var rem := out.BytesLeft() - HeaderSize(ipsize);
    ghost var flushed := out.pending == 0;
    var k := 0;
    d := EmptyDraft(rem);
    while k < |items|
      invariant 0 <= k <= |items|
      invariant Written(d, items[..k], rem, ipsize, out.Capacity())
      invariant InStep(d, base, ipsize, out) && (out.pending == 0 <==> flushed)
      invariant |out.packets| == |old(out.packets)| + |d.pushed|
    {
      UnsplitNext(items, k, ipsize);
      d := WriteNeighbour(items[k], d, items[..k], rem, base, ipsize, out);
      k := k + 1;
    }
    assert items[..k] == items;
  }

  method WriteItems(items: seq<Sent>, ghost base: seq<Hello>, ipsize: nat, out: Buffer<Hello>) returns (msgs: seq<Hello>)
    requires out.Valid() && out.Stream() == base && out.BytesLeft() >= HeaderSize(ipsize)
    requires out.Capacity() >= HeaderSize(ipsize) + INFO_HEADER + EntrySize(ipsize)
    requires out.pending == 0 || HeaderSize(ipsize) + Unsplit(items, ipsize) <= out.BytesLeft()
    modifies out
    ensures out.Valid() && out.Stream() == base + msgs
    ensures InMessages(msgs) == items && AllGood(msgs, ipsize, out.Capacity())
    ensures |msgs| == 1 <==> HeaderSize(ipsize) + Unsplit(items, ipsize) <= out.Capacity()
    ensures |out.packets| == |old(out.packets)| + |msgs| - 1
  {
    ghost var rem := out.BytesLeft() - HeaderSize(ipsize);
    var d := WriteLoop(items, base, ipsize, out);
    FinalMessages(d, items, rem, ipsize, out.Capacity());
    msgs := PushLast(d, base, ipsize, out);
  }

  /** The last message stays in the buffer. */
  method PushLast(d: Draft, ghost base: seq<Hello>, ipsize: nat, out: Buffer<Hello>) returns (msgs: seq<Hello>)
    requires d.size <= d.rem && InStep(d, base, ipsize, out)
    modifies out
    ensures out.Valid() && out.Stream() == base + msgs && out.packets == old(out.packets)
    ensures msgs == AllMessages(d, ipsize)
  {
    var h := Finished(d, ipsize);
    var pushed := out.Push(h, h.size);
    msgs := d.pushed + [h];
    assert base + d.pushed + [h] == base + msgs;
  }

  /** `serialize_lq_hello`. The buffer must be able to hold a message with one neighbour. */
  method SerializeLqHello(list: seq<Neighbour>, ipsize: nat, out: Buffer<Hello>) returns (msgs: seq<Hello>)
    requires ipsize == 4 || ipsize == 16
    requires out.Valid() && out.Capacity() >= HeaderSize(ipsize) + INFO_HEADER + EntrySize(ipsize)
    modifies out
    ensures out.Valid() && out.Stream() == old(out.Stream()) + msgs
    ensures Carries(list, msgs)
    ensures AllGood(msgs, ipsize, out.Capacity())
    ensures |msgs| == 1 <==> HeaderSize(ipsize) + Total(list, CLASSES, ipsize) <= out.Capacity()
    ensures |out.packets| == |old(out.packets)| + Flushes(old(out.pending), old(out.BytesLeft()), list, ipsize) + |msgs| - 1
  {
    ghost var base := out.Stream();
    MakeRoom(list, ipsize, out);
    var items := Enumerate(list);
    UnsplitTotal(list, CLASSES, ipsize);
    msgs := WriteItems(items, base, ipsize, out);
  }
}

/** LQ_TC messages: splitting the advertised neighbours over several messages, and what a
    receiver makes of the pieces. */
module TopologyControl {
  import opened Basics
  import opened Borders
  import opened OutputBuffer

  const NO_BORDER: Byte := 255

  /** One LQ_TC message: its size field, the two border flags and the advertised addresses. */
  datatype LqTc = LqTc(size: nat, lower: Byte, upper: Byte, neighbours: seq<Address>)

  /** Common message header plus LQ_TC header. */
  function HeaderSize(ipsize: nat): nat {
    if ipsize == 4 then 16 else 28
  }

  /** An address and its link quality. */
  function EntrySize(ipsize: nat): nat {
    ipsize + 4
  }

  predicate Addresses(list: seq<Address>, ipsize: nat) {
    forall i :: 0 <= i < |list| ==> |list[i]| == ipsize
  }

  function Gather(msgs: seq<LqTc>): seq<Address> {
    if msgs == [] then [] else Gather(msgs[..|msgs| - 1]) + msgs[|msgs| - 1].neighbours
  }

  lemma GatherAppend(msgs: seq<LqTc>, m: LqTc)
    ensures Gather(msgs + [m]) == Gather(msgs) + m.neighbours
  {
    assert (msgs + [m])[..|msgs|] == msgs;
  }

  predicate SizeFields(msgs: seq<LqTc>, ipsize: nat) {
    forall i :: 0 <= i < |msgs| ==>
      msgs[i].size == HeaderSize(ipsize) + Bytes(|msgs[i].neighbours|, ipsize)
  }

  /** Two consecutive fragments share one border flag, that of the addresses on either side. */
  predicate Joined(m: LqTc, next: LqTc) {
    && m.neighbours != [] && next.neighbours != []
    && var a, b := m.neighbours[|m.neighbours| - 1], next.neighbours[0];
    m.upper == next.lower && |a| == |b| && IsFlag(a, b, m.upper) && m.upper <= 128
  }

  /** `msgs` carry exactly `list`, cut into non-empty pieces with matching borders. */
  predicate Fragments(list: seq<Address>, msgs: seq<LqTc>, ipsize: nat) {
    && msgs != []
    && Gather(msgs) == list
    && (|msgs| > 1 ==> forall i :: 0 <= i < |msgs| ==> msgs[i].neighbours != [])
    && msgs[0].lower == NO_BORDER && msgs[|msgs| - 1].upper == NO_BORDER
    && (forall i :: 0 <= i < |msgs| - 1 ==> Joined(msgs[i], msgs[i + 1]))
    && SizeFields(msgs, ipsize)
  }

  predicate AllFit(msgs: seq<LqTc>, capacity: nat) {
    forall i :: 0 <= i < |msgs| ==> msgs[i].size <= capacity
  }

  /** The messages already sent while the current one, which starts at `list[start]`, is
      still open. */
  predicate SentSoFar(list: seq<Address>, msgs: seq<LqTc>, start: nat, left: Byte, ipsize: nat) {
    && start <= |list|
    && Gather(msgs) == list[..start]
    && (forall i :: 0 <= i < |msgs| ==> msgs[i].neighbours != [])
    && (forall i :: 0 <= i < |msgs| - 1 ==> Joined(msgs[i], msgs[i + 1]))
    && SizeFields(msgs, ipsize)
    && if msgs == [] then left == NO_BORDER && start == 0
       else
         && msgs[0].lower == NO_BORDER && left == msgs[|msgs| - 1].upper <= 128
         && 0 < start < |list| && |list[start - 1]| == |list[start]|
         && var last := msgs[|msgs| - 1].neighbours;
         last[|last| - 1] == list[start - 1] && IsFlag(list[start - 1], list[start], left)
  }

  /** Closing the current message at `k` keeps the books. */
  lemma CloseMessage(list: seq<Address>, msgs: seq<LqTc>, start: nat, k: nat, m: LqTc, ipsize: nat)
    requires start < k < |list| && Addresses(list, ipsize)
    requires SentSoFar(list, msgs, start, m.lower, ipsize)
    requires m.neighbours == list[start..k]
    requires m.size == HeaderSize(ipsize) + Bytes(|m.neighbours|, ipsize)
    requires IsFlag(list[k - 1], list[k], m.upper) && m.upper <= 128
    ensures SentSoFar(list, msgs + [m], k, m.upper, ipsize)
  {
    var after := msgs + [m];
    GatherAppend(msgs, m);
    assert list[..k] == list[..start] + list[start..k];
    JoinedNext(msgs, m);
    assert m.neighbours[|m.neighbours| - 1] == list[k - 1];
  }

  lemma JoinedNext(msgs: seq<LqTc>, m: LqTc)
    requires forall i :: 0 <= i < |msgs| - 1 ==> Joined(msgs[i], msgs[i + 1])
    requires msgs != [] ==> Joined(msgs[|msgs| - 1], m)
    ensures var after := msgs + [m]; forall i :: 0 <= i < |after| - 1 ==> Joined(after[i], after[i + 1])
  {
  }

  lemma CloseLast(list: seq<Address>, msgs: seq<LqTc>, start: nat, m: LqTc, ipsize: nat)
    requires SentSoFar(list, msgs, start, m.lower, ipsize)
    requires m.neighbours == list[start..]
    requires m.size == HeaderSize(ipsize) + Bytes(|m.neighbours|, ipsize)
    requires m.upper == NO_BORDER
    ensures Fragments(list, msgs + [m], ipsize)
  {
    GatherAppend(msgs, m);
    assert list == list[..start] + list[start..];
  }

  /** Bytes taken by `n` advertised neighbours. */
  function Bytes(n: nat, ipsize: nat): nat {
    if n == 0 then 0 else Bytes(n - 1, ipsize) + EntrySize(ipsize)
  }

  lemma {:induction false} BytesMonotone(n: nat, m: nat, ipsize: nat)
    requires n <= m
    ensures Bytes(n, ipsize) <= Bytes(m, ipsize)
  {
    if n < m {
      BytesMonotone(n, m - 1, ipsize);
    }
  }

  /** The body of the split in `serialize_lq_tc`: close the message that holds
      `list[start..k]`, push it and send the packet off. */
  method CloseFragment(list: seq<Address>, ghost base: seq<LqTc>, ghost msgs: seq<LqTc>, start: nat, k: nat, left: Byte,
                       ipsize: nat, size: nat, out: Buffer<LqTc>) returns (flag: Byte, m: LqTc)
    requires (ipsize == 4 || ipsize == 16) && Addresses(list, ipsize)
    requires start < k < |list| && size == Bytes(k - start, ipsize)
    requires SentSoFar(list, msgs, start, left, ipsize)
    requires out.Valid() && HeaderSize(ipsize) + size <= out.BytesLeft() && out.Stream() == base + msgs
    requires AllFit(msgs, out.Capacity())
    modifies out
    ensures out.Valid() && out.pending == 0 && |out.packets| == |old(out.packets)| + 1
    ensures out.Stream() == base + (msgs + [m]) && AllFit(msgs + [m], out.Capacity())
    ensures SentSoFar(list, msgs + [m], k, flag, ipsize)
  {
    flag := CalculateBorderFlag(list[k - 1], list[k]);
    m := LqTc(HeaderSize(ipsize) + size, left, flag, list[start..k]);
    CloseMessage(list, msgs, start, k, m, ipsize);
    out.PushOut(m, m.size);
    assert base + msgs + [m] == base + (msgs + [m]);
  }

  /** The end of `serialize_lq_tc`: the last message stays in the buffer. */
  method CloseMessageList(list: seq<Address>, ghost base: seq<LqTc>, ghost msgs: seq<LqTc>, start: nat, left: Byte,
                          ipsize: nat, size: nat, out: Buffer<LqTc>) returns (m: LqTc)
    requires start <= |list| && size == Bytes(|list| - start, ipsize)
    requires SentSoFar(list, msgs, start, left, ipsize)
    requires out.Valid() && HeaderSize(ipsize) + size <= out.BytesLeft() && out.Stream() == base + msgs
    requires AllFit(msgs, out.Capacity())
    modifies out
    ensures out.Valid() && out.packets == old(out.packets)
    ensures out.Stream() == base + (msgs + [m]) && AllFit(msgs + [m], out.Capacity())
    ensures Fragments(list, msgs + [m], ipsize)
  {
    m := LqTc(HeaderSize(ipsize) + size, left, NO_BORDER, list[start..]);
    CloseLast(list, msgs, start, m, ipsize);
    var pushed := out.Push(m, m.size);
    assert base + msgs + [m] == base + (msgs + [m]);
  }

  /** One, if what is queued is sent off first because the whole list does not fit behind it. */
  function Flushes(pending: nat, left: nat, list: seq<Address>, ipsize: nat): nat {
    if 0 < pending && left < HeaderSize(ipsize) + Bytes(|list|, ipsize) then 1 else 0
  }

  /** The opening of `serialize_lq_tc`: flush the buffer unless the whole list fits behind
      what is already queued. */
  method MakeRoom(list: seq<Address>, ipsize: nat, out: Buffer<LqTc>)
    requires out.Valid() && out.Capacity() >= HeaderSize(ipsize)
    modifies out
    ensures out.Valid() && out.Stream() == old(out.Stream()) && HeaderSize(ipsize) <= out.BytesLeft()
    ensures out.pending == 0 || HeaderSize(ipsize) + Bytes(|list|, ipsize) <= out.BytesLeft()
    ensures |out.packets| == |old(out.packets)| + Flushes(old(out.pending), old(out.BytesLeft()), list, ipsize)
  {
    var expected := 0;
    if 0 < out.pending {
      expected := Bytes(|list|, ipsize);
    }
    if out.BytesLeft() - HeaderSize(ipsize) < expected {
      out.Output();
    }
  }

  /** The loop of `serialize_lq_tc` before entry `k`: the current message starts at `start`, and the
      others have gone out, a packet each. */
  ghost predicate InProgress(list: seq<Address>, base: seq<LqTc>, before: nat, msgs: seq<LqTc>, start: nat, k: nat, left: Byte,
                             ipsize: nat, size: nat, out: Buffer<LqTc>)
    reads out
  {
    && start <= k <= |list| && SentSoFar(list, msgs, start, left, ipsize)
    && out.Valid() && out.Stream() == base + msgs && AllFit(msgs, out.Capacity())
    && size == Bytes(k - start, ipsize) && HeaderSize(ipsize) + size <= out.BytesLeft()
    && (out.pending == 0 || HeaderSize(ipsize) + Bytes(|list|, ipsize) <= out.BytesLeft())
    && (HeaderSize(ipsize) + Bytes(|list|, ipsize) <= out.Capacity() ==> msgs == [])
    && |out.packets| == before + |msgs|
  }

  /** The loop body: a message without room for the entry is closed first. */
  method AddEntry(list: seq<Address>, ghost base: seq<LqTc>, ghost before: nat, msgs: seq<LqTc>, start: nat, k: nat, left: Byte,
                  ipsize: nat, size: nat, out: Buffer<LqTc>)
    returns (msgs': seq<LqTc>, start': nat, left': Byte, size': nat)
    requires (ipsize == 4 || ipsize == 16) && Addresses(list, ipsize) && k < |list|
    requires InProgress(list, base, before, msgs, start, k, left, ipsize, size, out)
    requires out.Capacity() >= HeaderSize(ipsize) + EntrySize(ipsize)
    modifies out
    ensures InProgress(list, base, before, msgs', start', k + 1, left', ipsize, size', out)
  {
    BytesMonotone(k - start + 1, |list|, ipsize);
    assert Bytes(k + 1 - start, ipsize) == size + EntrySize(ipsize) && Bytes(1, ipsize) == EntrySize(ipsize);
    msgs', start', left', size' := msgs, start, left, size;
    if size + EntrySize(ipsize) > out.BytesLeft() - HeaderSize(ipsize) {
      var flag, m := CloseFragment(list, base, msgs, start, k, left, ipsize, size, out);
      msgs', start', left', size' := msgs + [m], k, flag, 0;
    }
    size' := size' + EntrySize(ipsize);
  }

  /** `serialize_lq_tc`. The buffer must be able to hold a message with one entry, which the
      code asserts when it comes to the first split. */
  method SerializeLqTc(list: seq<Address>, ipsize: nat, out: Buffer<LqTc>) returns (msgs: seq<LqTc>)
    requires (ipsize == 4 || ipsize == 16) && Addresses(list, ipsize)
    requires out.Valid() && out.Capacity() >= HeaderSize(ipsize) + (if list == [] then 0 else EntrySize(ipsize))
    modifies out
    ensures out.Valid()
    ensures Fragments(list, msgs, ipsize)
    ensures out.Stream() == old(out.Stream()) + msgs
    ensures AllFit(msgs, out.Capacity())
    ensures HeaderSize(ipsize) + Bytes(|list|, ipsize) <= out.Capacity() ==> |msgs| == 1
    ensures |out.packets| == |old(out.packets)| + Flushes(old(out.pending), old(out.BytesLeft()), list, ipsize) + |msgs| - 1
  {
    msgs := [];
    ghost var base := out.Stream();
    MakeRoom(list, ipsize, out);
    ghost var before := |out.packets|;
    var left: Byte, size, start, k := NO_BORDER, 0, 0, 0;
    while k < |list|
      invariant k <= |list| && InProgress(list, base, before, msgs, start, k, left, ipsize, size, out)
    {
      msgs, start, left, size := AddEntry(list, base, before, msgs, start, k, left, ipsize, size, out);
      k := k + 1;
    }
    var m := CloseMessageList(list, base, msgs, start, left, ipsize, size, out);
    msgs := msgs + [m];
  }
}

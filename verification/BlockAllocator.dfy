/** The memory blocks of a cookie: freed blocks are kept on a list and handed out again. */
module BlockAllocator {
  import opened Basics

  const THRESHOLD := 10

  /** A block with the brand behind its data. */
  class Block {
    var data: seq<nat>
    var brand: Option<nat>

    constructor (size: nat)
      ensures data == Zeroes(size) && brand == None
    {
      data, brand := Zeroes(size), None;
    }
  }

  function Zeroes(size: nat): (z: seq<nat>)
    ensures |z| == size && forall i :: 0 <= i < size ==> z[i] == 0
  {
    seq(size, _ => 0)
  }

  /** `usage` and `freeUsage` are the statistics of the cookie; `live` are the blocks handed out and
      `peak` the largest number of them so far. */
  class Cookie {
    const id: nat
    const size: nat
    var usage: nat
    var freeUsage: nat
    var freeList: seq<Block>
    ghost var live: set<Block>
    ghost var peak: nat

    ghost predicate Valid()
      reads this
      reads live
    {
      && usage == |live| <= peak && freeUsage == |freeList| <= Max(THRESHOLD, peak / THRESHOLD)
      && (forall i, j :: 0 <= i < j < |freeList| ==> freeList[i] != freeList[j])
      && (forall i :: 0 <= i < |freeList| ==> freeList[i] !in live)
      && (forall b :: b in live ==> b.brand == Some(id))
    }

    constructor (id: nat, size: nat)
      ensures Valid() && live == {} && freeList == [] && peak == 0 && this.id == id && this.size == size
    {
      this.id, this.size := id, size;
      usage, freeUsage, freeList, live, peak := 0, 0, [], {}, 0;
    }

    /** `olsr_cookie_malloc`: a zeroed and branded block that nobody else has, the longest freed one
        if there is any. */
    method Malloc() returns (b: Block)
      requires Valid()
      modifies this, freeList
      ensures Valid() && b !in old(live) && live == old(live) + {b} && peak == Max(old(peak), old(usage) + 1)
      ensures b.data == Zeroes(size) && b.brand == Some(id)
      ensures if old(freeList) == [] then fresh(b) && freeList == []
              else b == old(freeList)[0] && freeList == old(freeList)[1..]
      ensures forall x :: x in old(freeList) && x != b ==> unchanged(x)
    {
      if freeUsage == 0 {
        b := new Block(size);
      } else {
        b := freeList[0];
        freeList := freeList[1..];
        b.data := Zeroes(size);
        freeUsage := freeUsage - 1;
      }
      b.brand := Some(id);
      usage := usage + 1;
      live := live + {b};
      peak := Max(peak, usage);
    }

    /** `olsr_cookie_free`: the link fields of the list overwrite part of a kept block. */
    method Free(b: Block, links: seq<nat>)
      requires Valid() && b in live && |links| == size
      modifies this, b
      ensures Valid() && live == old(live) - {b} && peak == old(peak) && b.brand == None
      ensures freeList == old(freeList) || freeList == old(freeList) + [b]
      ensures freeList == old(freeList) <==>
              old(freeUsage) >= THRESHOLD && old(freeUsage) >= old(usage) / THRESHOLD
    {
      b.brand := None;
      assert usage / THRESHOLD <= peak / THRESHOLD;
      if freeUsage < THRESHOLD || freeUsage < usage / THRESHOLD {
        b.data := links;
        freeList := freeList + [b];
        freeUsage := freeUsage + 1;
      }
      usage := usage - 1;
      live := live - {b};
    }
  }
}

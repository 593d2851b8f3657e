/** The space allocator: best-fit reuse, coalescing and end-of-file shrinking (internal/writer/allocator.go).
    Seen as regions, what it hands out meets the contract of Storage.FileWriter (lemma FreshRegion). */
module Allocator {
  import opened Storage

  datatype Block = Block(offset: nat, size: nat) {
    function End(): nat { offset + size }

    predicate Has(x: nat) { offset <= x < offset + size }
  }

  ghost predicate Covered(s: seq<Block>, x: nat)
  {
    exists i :: 0 <= i < |s| && s[i].Has(x)
  }

  ghost predicate Apart(s: seq<Block>)
  {
    forall i, j | 0 <= i < j < |s| :: s[i].End() <= s[j].offset || s[j].End() <= s[i].offset
  }

  /** In address order, touching at most. */
  ghost predicate Ordered(s: seq<Block>)
  {
    forall i, j | 0 <= i < j < |s| :: s[i].End() <= s[j].offset
  }

  /** In address order with a gap between any two. */
  ghost predicate Coalesced(s: seq<Block>)
  {
    forall i, j | 0 <= i < j < |s| :: s[i].End() < s[j].offset
  }

  ghost predicate Within(s: seq<Block>, lo: nat, hi: nat)
  {
    forall i | 0 <= i < |s| :: s[i].size > 0 && lo <= s[i].offset && s[i].End() <= hi
  }

  /** Allocated and free blocks partition the bytes from `lo` to `hi`. */
  ghost predicate Partition(blocks: seq<Block>, free: seq<Block>, lo: nat, hi: nat)
  {
    && lo <= hi && Within(blocks, lo, hi) && Within(free, lo, hi) && Apart(blocks) && Ordered(free)
    && forall x | lo <= x < hi :: Covered(blocks, x) <==> !Covered(free, x)
  }

  /** Allocated blocks as regions: sizes by address. */
  ghost function Regions(blocks: seq<Block>): (r: map<nat, nat>)
    ensures forall a | a in r :: exists i :: 0 <= i < |blocks| && blocks[i] == Block(a, r[a])
  {
    if blocks == [] then map[]
    else
      var n := |blocks| - 1;
      assert forall i | 0 <= i < n :: blocks[..n][i] == blocks[i];
      Regions(blocks[..n])[blocks[n].offset := blocks[n].size]
  }

  /** A new block is a fresh region, disjoint from the others. */
  lemma FreshRegion(blocks: seq<Block>, b: Block, free: seq<Block>, lo: nat, hi: nat)
    requires Partition(blocks + [b], free, lo, hi)
    ensures Regions(blocks + [b]) == Regions(blocks)[b.offset := b.size] && b.offset !in Regions(blocks)
    ensures forall a | a in Regions(blocks) :: Disjoint(a, Regions(blocks)[a], b.offset, b.size)
  {
    var all := blocks + [b];
    assert all[..|blocks|] == blocks && all[|blocks|] == b;
    forall a | a in Regions(blocks) ensures a != b.offset && Disjoint(a, Regions(blocks)[a], b.offset, b.size) {
      var i :| 0 <= i < |blocks| && blocks[i] == Block(a, Regions(blocks)[a]);
      assert all[i] == blocks[i];
    }
  }

  lemma CoveredParts(a: seq<Block>, b: Block, c: seq<Block>, x: nat)
    ensures Covered(a + [b] + c, x) <==> Covered(a + c, x) || b.Has(x)
  {
    var s, t := a + [b] + c, a + c;
    if i :| 0 <= i < |s| && s[i].Has(x) {
      if i != |a| {
        assert t[if i < |a| then i else i - 1] == s[i];
      }
    }
    if i :| 0 <= i < |t| && t[i].Has(x) {
      assert s[if i < |a| then i else i + 1] == t[i];
    }
    assert s[|a|] == b;
  }

  lemma CoveredEnd(a: seq<Block>, b: Block, x: nat)
    ensures Covered(a + [b], x) <==> Covered(a, x) || b.Has(x)
  {
    CoveredParts(a, b, [], x);
    assert a + [b] + [] == a + [b] && a + [] == a;
  }

  /** Blocks that may not overlap with anything allocated. */
  lemma FreeIsApart(blocks: seq<Block>, free: seq<Block>, lo: nat, hi: nat, i: nat, k: nat)
    requires Partition(blocks, free, lo, hi) && i < |free| && k < |blocks|
    ensures blocks[k].End() <= free[i].offset || free[i].End() <= blocks[k].offset
  {
    var x := if blocks[k].offset <= free[i].offset then free[i].offset else blocks[k].offset;
    if blocks[k].Has(x) && free[i].Has(x) {
      assert Covered(blocks, x) && Covered(free, x);
    }
  }

  /** Handing out a free block whole. */
  lemma TakeWhole(blocks: seq<Block>, free: seq<Block>, lo: nat, hi: nat, i: nat)
    requires Partition(blocks, free, lo, hi) && i < |free|
    ensures Partition(blocks + [free[i]], free[..i] + free[i + 1..], lo, hi)
  {
    var b, rest := free[i], free[..i] + free[i + 1..];
    assert free == free[..i] + [b] + free[i + 1..];
    forall k | 0 <= k < |rest| ensures rest[k] == free[if k < i then k else k + 1] {
    }
    forall k | 0 <= k < |blocks| ensures blocks[k].End() <= b.offset || b.End() <= blocks[k].offset {
      FreeIsApart(blocks, free, lo, hi, i, k);
    }
    forall x | lo <= x < hi ensures Covered(blocks + [b], x) <==> !Covered(rest, x) {
      CoveredParts(free[..i], b, free[i + 1..], x);
      CoveredEnd(blocks, b, x);
      OnlyOne(free, i, rest, x);
    }
  }

  /** A byte of block `i` is in no other block of an ordered list. */
  lemma OnlyOne(free: seq<Block>, i: nat, rest: seq<Block>, x: nat)
    requires Ordered(free) && i < |free| && rest == free[..i] + free[i + 1..]
    ensures free[i].Has(x) ==> !Covered(rest, x)
  {
    forall k | 0 <= k < |rest| ensures rest[k] == free[if k < i then k else k + 1] {
    }
  }

  /** Splitting a free block in two changes nothing else. */
  lemma Split(blocks: seq<Block>, free: seq<Block>, lo: nat, hi: nat, i: nat, n: nat)
    requires Partition(blocks, free, lo, hi) && i < |free| && 0 < n < free[i].size
    ensures Partition(blocks, free[..i] + [Block(free[i].offset, n)] + [Block(free[i].offset + n, free[i].size - n)] + free[i + 1..], lo, hi)
  {
    var b, c, d := free[i], Block(free[i].offset, n), Block(free[i].offset + n, free[i].size - n);
    var p, q := free[..i], free[i + 1..];
    var s := p + [c] + [d] + q;
    assert free == p + [b] + q;
    forall k | 0 <= k < |s| && k != i && k != i + 1 ensures s[k] == free[if k < i then k else k - 1] {
    }
    assert s[i] == c && s[i + 1] == d;
    forall x ensures Covered(s, x) <==> Covered(free, x) {
      CoveredParts(p, b, q, x);
      CoveredParts(p + [c], d, q, x);
      CoveredParts(p, c, q, x);
      assert s == (p + [c]) + [d] + q;
    }
  }

  /** Merging two touching neighbours changes nothing else. */
  lemma Merge(blocks: seq<Block>, free: seq<Block>, lo: nat, hi: nat, i: nat)
    requires Partition(blocks, free, lo, hi) && i + 1 < |free| && free[i].End() == free[i + 1].offset
    ensures Partition(blocks, Merged(free, i), lo, hi)
  {
    var b, c, d := Block(free[i].offset, free[i].size + free[i + 1].size), free[i], free[i + 1];
    var p, q := free[..i], free[i + 2..];
    var s := Merged(free, i);
    assert s == p + [b] + q && free == (p + [c]) + [d] + q;
    forall k | 0 <= k < |s| && k != i ensures s[k] == free[if k < i then k else k + 1] {
    }
    forall x ensures Covered(s, x) <==> Covered(free, x) {
      CoveredParts(p, b, q, x);
      CoveredParts(p + [c], d, q, x);
      CoveredParts(p, c, q, x);
    }
  }

  function Merged(free: seq<Block>, i: nat): (s: seq<Block>)
    requires i + 1 < |free|
    ensures |s| == |free| - 1 && s[i] == Block(free[i].offset, free[i].size + free[i + 1].size)
    ensures forall k | 0 <= k < |s| && k != i :: s[k] == free[if k < i then k else k + 1]
  {
    free[..i] + [Block(free[i].offset, free[i].size + free[i + 1].size)] + free[i + 2..]
  }

  /** Growing the file by an allocated block at its end. */
  lemma TakeEnd(blocks: seq<Block>, free: seq<Block>, lo: nat, hi: nat, n: nat)
    requires Partition(blocks, free, lo, hi) && n > 0
    ensures Partition(blocks + [Block(hi, n)], free, lo, hi + n)
  {
    var b := Block(hi, n);
    forall x | lo <= x < hi + n ensures Covered(blocks + [b], x) <==> !Covered(free, x) {
      CoveredEnd(blocks, b, x);
    }
  }

  /** Turning an allocated block into a free one at its place in address order. */
  lemma GiveBack(blocks: seq<Block>, free: seq<Block>, lo: nat, hi: nat, k: nat, at: nat)
    requires Partition(blocks, free, lo, hi) && k < |blocks| && at <= |free|
    requires forall i | 0 <= i < |free| :: i < at <==> free[i].offset < blocks[k].offset
    ensures Partition(blocks[..k] + blocks[k + 1..], free[..at] + [blocks[k]] + free[at..], lo, hi)
  {
    hide Covered;
    var b, rest, s := blocks[k], blocks[..k] + blocks[k + 1..], free[..at] + [blocks[k]] + free[at..];
    assert blocks == blocks[..k] + [b] + blocks[k + 1..] && free == free[..at] + free[at..];
    forall i | 0 <= i < |rest| ensures rest[i] == blocks[if i < k then i else i + 1] {
    }
    forall i | 0 <= i < |s| && i != at ensures s[i] == free[if i < at then i else i - 1] {
    }
    forall i | 0 <= i < |free| ensures if i < at then free[i].End() <= b.offset else b.End() <= free[i].offset {
      FreeIsApart(blocks, free, lo, hi, i, k);
    }
    forall x | lo <= x < hi ensures Covered(rest, x) <==> !Covered(s, x) {
      CoveredParts(blocks[..k], b, blocks[k + 1..], x);
      CoveredParts(free[..at], b, free[at..], x);
      OnlyAllocated(blocks, k, rest, x);
    }
  }

  lemma OnlyAllocated(blocks: seq<Block>, k: nat, rest: seq<Block>, x: nat)
    requires Apart(blocks) && k < |blocks| && rest == blocks[..k] + blocks[k + 1..]
    ensures blocks[k].Has(x) ==> !Covered(rest, x)
  {
    forall i | 0 <= i < |rest| ensures rest[i] == blocks[if i < k then i else i + 1] {
    }
  }

  /** Cutting the file in front of a last free block. */
  lemma CutTail(blocks: seq<Block>, free: seq<Block>, lo: nat, hi: nat)
    requires Partition(blocks, free, lo, hi) && free != [] && free[|free| - 1].End() == hi
    ensures Partition(blocks, free[..|free| - 1], lo, free[|free| - 1].offset)
  {
    var n := |free| - 1;
    var b := free[n];
    assert free == free[..n] + [b];
    forall k | 0 <= k < |blocks| ensures blocks[k].End() <= b.offset {
      FreeIsApart(blocks, free, lo, hi, n, k);
    }
    forall x | lo <= x < b.offset ensures Covered(blocks, x) <==> !Covered(free[..n], x) {
      CoveredEnd(free[..n], b, x);
    }
  }

  /** Cutting the file in front of an allocated block at its end. */
  lemma CutAllocated(blocks: seq<Block>, free: seq<Block>, lo: nat, hi: nat, k: nat)
    requires Partition(blocks, free, lo, hi) && k < |blocks| && blocks[k].End() == hi
    ensures Partition(blocks[..k] + blocks[k + 1..], free, lo, blocks[k].offset)
  {
    var b, rest := blocks[k], blocks[..k] + blocks[k + 1..];
    assert blocks == blocks[..k] + [b] + blocks[k + 1..];
    forall i | 0 <= i < |rest| ensures rest[i] == blocks[if i < k then i else i + 1] && rest[i].End() <= b.offset {
    }
    forall i | 0 <= i < |free| ensures free[i].End() <= b.offset {
      FreeIsApart(blocks, free, lo, hi, i, k);
    }
    forall x | lo <= x < b.offset ensures Covered(rest, x) <==> !Covered(free, x) {
      CoveredParts(blocks[..k], b, blocks[k + 1..], x);
    }
  }

  /** Block `k` is large enough, and no other that is has fewer bytes. */
  ghost predicate BestFor(free: seq<Block>, size: nat, k: nat)
  {
    k < |free| && free[k].size >= size && forall i | 0 <= i < |free| && free[i].size >= size :: free[k].size <= free[i].size
  }

  /** The free list without the first `size` bytes of block `k`. */
  function Taken(free: seq<Block>, k: nat, size: nat): seq<Block>
    requires k < |free| && size <= free[k].size
  {
    if free[k].size == size then free[..k] + free[k + 1..] else free[k := Block(free[k].offset + size, free[k].size - size)]
  }

  ghost predicate NoneFits(free: seq<Block>, size: nat)
  {
    forall i | 0 <= i < |free| :: free[i].size < size
  }

  /** The address is that of a smallest block that fits, and only that block has become shorter, or is gone. */
  ghost predicate TakenFrom(free: seq<Block>, left: seq<Block>, address: nat, size: nat)
  {
    exists k: nat :: BestFor(free, size, k) && address == free[k].offset && left == Taken(free, k, size)
  }

  class SpaceAllocator {
    var blocks: seq<Block>
    var freeList: seq<Block>
    var nextOffset: nat
    ghost const start: nat

    /** Every byte between the superblock and the end of file is in exactly one allocated or free block; free blocks
        are in order, never touch one another, and never touch the end of file. */
    ghost predicate Valid()
      reads this
    {
      && Partition(blocks, freeList, start, nextOffset) && Coalesced(freeList)
      && forall i | 0 <= i < |freeList| :: freeList[i].End() < nextOffset
    }

    constructor (initialOffset: nat)
      ensures Valid() && blocks == [] && freeList == [] && nextOffset == initialOffset
    {
      blocks, freeList, nextOffset, start := [], [], initialOffset, initialOffset;
    }

    /** The smallest free block that is large enough. */
    method BestFit(size: nat) returns (best: int)
      ensures best == -1 ==> forall i | 0 <= i < |freeList| :: freeList[i].size < size
      ensures best != -1 ==> 0 <= best < |freeList| && freeList[best].size >= size
      ensures best != -1 ==> forall i | 0 <= i < |freeList| && freeList[i].size >= size :: freeList[best].size <= freeList[i].size
    {
      best := -1;
      var i := 0;
      while i < |freeList|
        invariant i <= |freeList| && -1 <= best < i
        invariant best == -1 ==> forall j | 0 <= j < i :: freeList[j].size < size
        invariant best != -1 ==> freeList[best].size >= size
        invariant best != -1 ==> forall j | 0 <= j < i && freeList[j].size >= size :: freeList[best].size <= freeList[j].size
      {
        if freeList[i].size >= size {
          if best == -1 || freeList[i].size < freeList[best].size {
            best := i;
          }
        }
        i := i + 1;
      }
    }

    /** Allocate: space never overlaps what is allocated; the file only grows when no free block is large enough. */
    method Allocate(size: nat) returns (ok: bool, address: nat)
      requires Valid()
      modifies this
      ensures Valid() && (ok <==> size > 0)
      ensures !ok ==> blocks == old(blocks) && freeList == old(freeList) && nextOffset == old(nextOffset)
      ensures ok ==> blocks == old(blocks) + [Block(address, size)]
      ensures ok ==> forall i | 0 <= i < |old(blocks)| :: old(blocks)[i].End() <= address || address + size <= old(blocks)[i].offset
      ensures ok ==> address !in Regions(old(blocks)) && Regions(blocks) == Regions(old(blocks))[address := size]
      ensures ok ==> forall a | a in Regions(old(blocks)) :: Disjoint(a, Regions(old(blocks))[a], address, size)
      ensures ok && NoneFits(old(freeList), size) ==>
        address == old(nextOffset) && nextOffset == old(nextOffset) + size && freeList == old(freeList)
      ensures ok && !NoneFits(old(freeList), size) ==> TakenFrom(old(freeList), freeList, address, size) && nextOffset == old(nextOffset)
    {
      hide Partition, Coalesced;
      if size == 0 {
        return false, 0;
      }
      var best := BestFit(size);
      if best >= 0 {
        assert BestFor(freeList, size, best);
        address := Reuse(best, size);
      } else {
        TakeEnd(blocks, freeList, start, nextOffset, size);
        address := nextOffset;
        blocks := blocks + [Block(address, size)];
        nextOffset := address + size;
      }
      LastApart(old(blocks), Block(address, size), freeList, start, nextOffset);
      FreshRegion(old(blocks), Block(address, size), freeList, start, nextOffset);
      ok := true;
    }

    /** Takes the front of a free block, or all of it on an exact fit. */
    method Reuse(best: nat, size: nat) returns (address: nat)
      requires Valid() && best < |freeList| && 0 < size <= freeList[best].size
      modifies this`blocks, this`freeList
      ensures Valid() && address == old(freeList)[best].offset && blocks == old(blocks) + [Block(address, size)]
      ensures freeList == Taken(old(freeList), best, size)
    {
      hide Partition;
      var fb := freeList[best];
      address := fb.offset;
      if fb.size == size {
        TakeWhole(blocks, freeList, start, nextOffset, best);
        Dropped(freeList, best);
        freeList := freeList[..best] + freeList[best + 1..];
      } else {
        TakeFront(blocks, freeList, start, nextOffset, best, size);
        Shrunk(freeList, best, size);
        freeList := freeList[best := Block(fb.offset + size, fb.size - size)];
      }
      blocks := blocks + [Block(address, size)];
    }

    /** Free: a block that was handed out and not yet freed leaves the allocated ones, and the file shrinks or the block
        joins its free neighbours.  Anything else of at least one byte is accepted too, and destroys the tiling. */
    method Free(offset: nat, size: nat) returns (ok: bool)
      requires Valid()
      modifies this
      ensures ok <==> size > 0
      ensures !ok ==> blocks == old(blocks) && freeList == old(freeList) && nextOffset == old(nextOffset)
      ensures ok ==> (Valid() <==> Block(offset, size) in old(blocks))
      ensures ok ==> blocks == Without(old(blocks), Block(offset, size))
      ensures nextOffset <= old(nextOffset)
    {
      hide Partition, Coalesced, Joined;
      if size == 0 {
        return false;
      }
      ghost var b := Block(offset, size);
      var k := 0;
      while k < |blocks| && !(blocks[k].offset == offset && blocks[k].size == size)
        invariant k <= |blocks| && forall i | 0 <= i < k :: blocks[i] != b
      {
        k := k + 1;
      }
      FirstWithout(blocks, b, k);
      if k < |blocks| {
        blocks := blocks[..k] + blocks[k + 1..];
      }
      if offset + size == nextOffset {
        if b in old(blocks) {
          CutAllocated(old(blocks), freeList, start, nextOffset, k);
          FreeBelow(old(blocks), freeList, start, nextOffset, k);
        } else {
          EndBreaks(blocks, freeList, start, nextOffset, b);
        }
        nextOffset := offset;
        ShrinkTrailing();
      } else {
        if b in old(blocks) {
          JoinedKeeps(old(blocks), freeList, start, nextOffset, k);
        } else {
          JoinedBreaks(blocks, freeList, start, nextOffset, b);
        }
        AddToFreeList(offset, size);
      }
      ok := true;
    }

    /** shrinkTrailingFreeBlocks. */
    method ShrinkTrailing()
      modifies this`freeList, this`nextOffset
      ensures nextOffset <= old(nextOffset)
      ensures old(Partition(blocks, freeList, start, nextOffset) && Coalesced(freeList)) ==> Valid()
    {
      hide Partition;
      ghost var tiled := Partition(blocks, freeList, start, nextOffset) && Coalesced(freeList);
      while |freeList| > 0
        invariant nextOffset <= old(nextOffset)
        invariant tiled ==> Partition(blocks, freeList, start, nextOffset) && Coalesced(freeList)
        decreases |freeList|
      {
        var last := freeList[|freeList| - 1];
        if tiled {
          FreeInside(blocks, freeList, start, nextOffset);
        }
        if last.offset + last.size == nextOffset {
          if tiled {
            CutTail(blocks, freeList, start, nextOffset);
          }
          nextOffset := last.offset;
          freeList := freeList[..|freeList| - 1];
        } else {
          break;
        }
      }
    }

    /** addToFreeList: insert in address order, then merge with the next and the previous block if they touch. */
    method AddToFreeList(offset: nat, size: nat)
      modifies this`freeList
      ensures freeList == Joined(old(freeList), Block(offset, size))
    {
      hide MergedIf;
      var at: int := 0;
      while at < |freeList| && freeList[at].offset < offset
        invariant 0 <= at <= |freeList| && forall i | 0 <= i < at :: freeList[i].offset < offset
      {
        at := at + 1;
      }
      PlaceIs(freeList, offset, at);
      freeList := freeList[..at] + [Block(offset, size)] + freeList[at..];
      Coalesce(at);
      Coalesce(at - 1);
    }

    /** Merges a free block with the next one if they touch. */
    method Coalesce(i: int)
      modifies this`freeList
      ensures freeList == MergedIf(old(freeList), i)
    {
      if 0 <= i < |freeList| - 1 && freeList[i].offset + freeList[i].size == freeList[i + 1].offset {
        freeList := Merged(freeList, i);
      }
    }
  }

  /** The list without the first occurrence of the block. */
  function Without(s: seq<Block>, b: Block): seq<Block>
  {
    if s == [] then [] else if s[0] == b then s[1..] else [s[0]] + Without(s[1..], b)
  }

  lemma {:induction false} FirstWithout(s: seq<Block>, b: Block, k: nat)
    requires k <= |s| && (forall i | 0 <= i < k :: s[i] != b) && (k < |s| ==> s[k] == b)
    ensures Without(s, b) == if k < |s| then s[..k] + s[k + 1..] else s
    ensures b in s <==> k < |s|
  {
    hide Without;
    WithoutHead(s, b);
    if k > 0 {
      FirstWithout(s[1..], b, k - 1);
      if k < |s| {
        assert s[..k] == [s[0]] + s[1..][..k - 1] && s[k + 1..] == s[1..][k..];
      }
    }
  }

  lemma WithoutHead(s: seq<Block>, b: Block)
    ensures s == [] ==> Without(s, b) == s
    ensures s != [] ==> Without(s, b) == (if s[0] == b then s[1..] else [s[0]] + Without(s[1..], b)) && s == [s[0]] + s[1..]
  {
  }

  // ---- insertion into the free list ----

  /** The first position whose block does not start before `offset`. */
  function Place(free: seq<Block>, offset: nat): (at: nat)
    ensures at <= |free| && (at < |free| ==> free[at].offset >= offset)
    ensures forall i | 0 <= i < at :: free[i].offset < offset
  {
    if free == [] || free[0].offset >= offset then 0 else 1 + Place(free[1..], offset)
  }

  lemma PlaceIs(free: seq<Block>, offset: nat, at: nat)
    requires at <= |free| && (at < |free| ==> free[at].offset >= offset) && forall i | 0 <= i < at :: free[i].offset < offset
    ensures Place(free, offset) == at
  {
  }

  function MergedIf(s: seq<Block>, i: int): (r: seq<Block>)
  {
    if 0 <= i < |s| - 1 && s[i].End() == s[i + 1].offset then Merged(s, i) else s
  }

  function Inserted(free: seq<Block>, b: Block): seq<Block>
  {
    var at := Place(free, b.offset);
    free[..at] + [b] + free[at..]
  }

  function Joined(free: seq<Block>, b: Block): seq<Block>
  {
    var at := Place(free, b.offset);
    MergedIf(MergedIf(Inserted(free, b), at), at - 1)
  }

  /** Freeing an allocated block keeps the tiling, gaps between free blocks, and the distance to the end of file. */
  lemma JoinedKeeps(blocks: seq<Block>, free: seq<Block>, lo: nat, hi: nat, k: nat)
    requires Partition(blocks, free, lo, hi) && Coalesced(free) && (forall i | 0 <= i < |free| :: free[i].End() < hi)
    requires k < |blocks| && blocks[k].End() != hi
    ensures var all := Joined(free, blocks[k]);
      && Partition(blocks[..k] + blocks[k + 1..], all, lo, hi) && Coalesced(all)
      && forall i | 0 <= i < |all| :: all[i].End() < hi
  {
    hide Partition, MergedIf, Gapped, Coalesced;
    var b, rest := blocks[k], blocks[..k] + blocks[k + 1..];
    var at: int := Place(free, b.offset);
    BlockInside(blocks, free, lo, hi, k);
    GiveBack(blocks, free, lo, hi, k, at);
    InsertedGapped(free, b, at);
    var s := Inserted(free, b);
    FreeInside(rest, s, lo, hi);
    MergeKeeps(rest, s, lo, hi, at, {at - 1, at});
    var t := MergedIf(s, at);
    assert {at - 1, at} - {at} == {at - 1};
    MergeKeeps(rest, t, lo, hi, at - 1, {at - 1});
    assert {at - 1} - {at - 1} == {};
    FreeInside(rest, MergedIf(t, at - 1), lo, hi);
    GapsEverywhere(MergedIf(t, at - 1));
  }

  /** Coalescing at `i` keeps the tiling and leaves no touching pair there. */
  lemma MergeKeeps(blocks: seq<Block>, free: seq<Block>, lo: nat, hi: nat, i: int, except: set<int>)
    requires Partition(blocks, free, lo, hi) && Gapped(free, except) && i < |free|
    requires (forall k | k in except :: k <= i) && forall k | 0 <= k < |free| :: free[k].End() < hi
    ensures Partition(blocks, MergedIf(free, i), lo, hi) && Gapped(MergedIf(free, i), except - {i})
    ensures (forall k | 0 <= k < |MergedIf(free, i)| :: MergedIf(free, i)[k].End() < hi) && i - 1 < |MergedIf(free, i)|
  {
    hide Partition;
    FreeInside(blocks, free, lo, hi);
    if 0 <= i < |free| - 1 && free[i].End() == free[i + 1].offset {
      Merge(blocks, free, lo, hi, i);
      MergedGapped(free, i, except);
    }
  }

  lemma MergedCovers(s: seq<Block>, i: int, x: nat)
    ensures Covered(MergedIf(s, i), x) <==> Covered(s, x)
  {
    if 0 <= i < |s| - 1 && s[i].End() == s[i + 1].offset {
      var c, d, p, q := s[i], s[i + 1], s[..i], s[i + 2..];
      var b := Block(c.offset, c.size + d.size);
      assert s == (p + [c]) + [d] + q;
      CoveredParts(p, b, q, x);
      CoveredParts(p + [c], d, q, x);
      CoveredParts(p, c, q, x);
    }
  }

  lemma JoinedCovers(free: seq<Block>, b: Block, x: nat)
    ensures Covered(Joined(free, b), x) <==> Covered(free, x) || b.Has(x)
  {
    hide Covered;
    var at: int := Place(free, b.offset);
    MergedCovers(MergedIf(Inserted(free, b), at), at - 1, x);
    MergedCovers(Inserted(free, b), at, x);
    CoveredParts(free[..at], b, free[at..], x);
    assert free[..at] + free[at..] == free;
  }

  /** Freeing what is not an allocated block leaves bytes that are both allocated and free, or free twice, or outside. */
  lemma JoinedBreaks(blocks: seq<Block>, free: seq<Block>, lo: nat, hi: nat, b: Block)
    requires Partition(blocks, free, lo, hi) && Coalesced(free) && b.size > 0
    ensures !Partition(blocks, Joined(free, b), lo, hi)
  {
    hide Joined;
    if Partition(blocks, Joined(free, b), lo, hi) {
      forall x | b.Has(x) ensures Covered(free, x) {
        JoinedCovers(free, b, x);
        CoveredInside(Joined(free, b), lo, hi, x);
      }
      var i := InsideOne(free, b);
      NotMerged(free, b, i);
      assert false;
    }
  }

  lemma CoveredInside(s: seq<Block>, lo: nat, hi: nat, x: nat)
    requires Within(s, lo, hi) && Covered(s, x)
    ensures lo <= x < hi
  {
  }

  lemma EndUncovered(free: seq<Block>, i: nat)
    requires Coalesced(free) && i < |free|
    ensures !Covered(free, free[i].End())
  {
    forall j | 0 <= j < |free| ensures !free[j].Has(free[i].End()) {
    }
  }

  /** Bytes covered by a coalesced list without a gap lie in one of its blocks. */
  lemma InsideOne(free: seq<Block>, b: Block) returns (i: nat)
    requires Coalesced(free) && b.size > 0 && forall x | b.Has(x) :: Covered(free, x)
    ensures i < |free| && free[i].offset <= b.offset && b.End() <= free[i].End()
  {
    assert b.Has(b.offset);
    i :| 0 <= i < |free| && free[i].Has(b.offset);
    EndUncovered(free, i);
    assert !b.Has(free[i].End());
  }

  lemma NoMerge(s: seq<Block>, i: int)
    requires 0 <= i < |s| - 1 ==> s[i].End() != s[i + 1].offset
    ensures MergedIf(s, i) == s
  {
  }

  lemma OutOfOrder(s: seq<Block>, i: nat)
    requires i + 1 < |s| && s[i].End() > s[i + 1].offset
    ensures !Ordered(s)
  {
  }

  /** A block put inside a free one touches neither neighbour, so the list is out of order. */
  lemma NotMerged(free: seq<Block>, b: Block, i: nat)
    requires Coalesced(free) && b.size > 0 && i < |free| && free[i].offset <= b.offset && b.End() <= free[i].End()
    ensures !Ordered(Joined(free, b))
  {
    hide MergedIf, Ordered;
    var at: int := if free[i].offset < b.offset then i + 1 else i;
    PlaceIs(free, b.offset, at);
    var s := Inserted(free, b);
    assert s[at] == b;
    assert at > 0 ==> s[at - 1] == free[at - 1];
    assert at < |free| ==> s[at + 1] == free[at];
    NoMerge(s, at);
    NoMerge(s, at - 1);
    OutOfOrder(s, i);
  }

  /** Cutting the file in front of what is not an allocated block cuts one off, or the superblock. */
  lemma EndBreaks(blocks: seq<Block>, free: seq<Block>, lo: nat, hi: nat, b: Block)
    requires Partition(blocks, free, lo, hi) && (forall i | 0 <= i < |free| :: free[i].End() < hi)
    requires b.size > 0 && b.End() == hi
    ensures forall more, cut: nat | cut <= b.offset :: !Partition(blocks, more, lo, cut)
  {
    if lo < hi {
      assert !Covered(free, hi - 1);
      assert Covered(blocks, hi - 1);
      var k :| 0 <= k < |blocks| && blocks[k].Has(hi - 1);
      assert blocks[k].End() == hi;
    }
  }

  /** Neighbours have a gap between them, except possibly behind the listed positions. */
  ghost predicate Gapped(s: seq<Block>, except: set<int>)
  {
    forall k | 0 <= k < |s| - 1 && k !in except :: s[k].End() < s[k + 1].offset
  }

  /** Inserting one block can only close the gaps on its two sides. */
  lemma InsertedGapped(was: seq<Block>, b: Block, at: nat)
    requires Coalesced(was) && at <= |was|
    ensures Gapped(was[..at] + [b] + was[at..], {at - 1, at})
  {
    var s := was[..at] + [b] + was[at..];
    forall k | 0 <= k < |s| - 1 && k !in {at - 1, at} ensures s[k].End() < s[k + 1].offset {
      if k < at {
        assert s[k] == was[k] && s[k + 1] == was[k + 1];
      } else {
        assert s[k] == was[k - 1] && s[k + 1] == was[k];
      }
    }
  }

  lemma MergedGapped(s: seq<Block>, i: nat, except: set<int>)
    requires i + 1 < |s| && Gapped(s, except) && s[i].End() == s[i + 1].offset
    requires forall k | k in except :: k <= i
    ensures Gapped(Merged(s, i), except - {i})
  {
    var t := Merged(s, i);
    assert t[i].End() == s[i + 1].End();
  }

  lemma GapsEverywhere(s: seq<Block>)
    requires Gapped(s, {}) && Ordered(s) && forall k | 0 <= k < |s| :: s[k].size > 0
    ensures Coalesced(s)
  {
    forall i, j | 0 <= i < j < |s| ensures s[i].End() < s[j].offset {
      assert s[i].End() < s[i + 1].offset;
      assert i + 1 < j ==> s[i + 1].End() <= s[j].offset;
    }
  }

  lemma LastApart(blocks: seq<Block>, b: Block, free: seq<Block>, lo: nat, hi: nat)
    requires Partition(blocks + [b], free, lo, hi)
    ensures forall i | 0 <= i < |blocks| :: blocks[i].End() <= b.offset || b.End() <= blocks[i].offset
  {
    var all := blocks + [b];
    forall i | 0 <= i < |blocks| ensures blocks[i].End() <= b.offset || b.End() <= blocks[i].offset {
      assert all[i] == blocks[i] && all[|blocks|] == b;
    }
  }

  /** Splitting off the front of a free block and handing it out. */
  lemma TakeFront(blocks: seq<Block>, free: seq<Block>, lo: nat, hi: nat, i: nat, n: nat)
    requires Partition(blocks, free, lo, hi) && i < |free| && 0 < n < free[i].size
    ensures Partition(blocks + [Block(free[i].offset, n)], free[i := Block(free[i].offset + n, free[i].size - n)], lo, hi)
  {
    hide Partition;
    var front, rest := Block(free[i].offset, n), Block(free[i].offset + n, free[i].size - n);
    var split := free[..i] + [front] + [rest] + free[i + 1..];
    Split(blocks, free, lo, hi, i, n);
    TakeWhole(blocks, split, lo, hi, i);
    assert split[i] == front && split[..i] + split[i + 1..] == free[i := rest];
  }

  /** Removing or shrinking a free block keeps the gaps and the distance to the end of file. */
  lemma Dropped(free: seq<Block>, i: nat)
    requires Coalesced(free) && i < |free|
    ensures var r := free[..i] + free[i + 1..]; Coalesced(r) && forall k | 0 <= k < |r| :: r[k] in free
  {
    var r := free[..i] + free[i + 1..];
    forall k | 0 <= k < |r| ensures r[k] == free[if k < i then k else k + 1] {
    }
  }

  lemma Shrunk(free: seq<Block>, i: nat, n: nat)
    requires Coalesced(free) && i < |free| && n < free[i].size
    ensures var r := free[i := Block(free[i].offset + n, free[i].size - n)];
      Coalesced(r) && forall k | 0 <= k < |r| :: r[k].End() == free[k].End()
  {
  }

  lemma FreeInside(blocks: seq<Block>, free: seq<Block>, lo: nat, hi: nat)
    requires Partition(blocks, free, lo, hi)
    ensures Ordered(free) && forall i | 0 <= i < |free| :: free[i].size > 0 && free[i].End() <= hi
  {
  }

  lemma BlockInside(blocks: seq<Block>, free: seq<Block>, lo: nat, hi: nat, k: nat)
    requires Partition(blocks, free, lo, hi) && k < |blocks|
    ensures blocks[k].End() <= hi
    ensures forall i, j | 0 <= i < j < |free| :: free[i].offset <= free[j].offset
  {
  }

  /** In front of an allocated block at the end of file, all free blocks end before it. */
  lemma FreeBelow(blocks: seq<Block>, free: seq<Block>, lo: nat, hi: nat, k: nat)
    requires Partition(blocks, free, lo, hi) && k < |blocks| && blocks[k].End() == hi
    ensures blocks[k].offset <= hi
  {
  }
}
